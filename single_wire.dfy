/**
 * The receiving side of one DHT11 transfer, as the driver samples it.
 *
 * The hardware is an input: `line(k)` is the level the k-th `digitalRead` of
 * the data pin returns during one call of `read`, and `clock(k)` the value
 * the k-th `micros()` call returns (an `unsigned long`, 32 bits wide). The
 * wake pulse that precedes the sampling drives the pin and reads nothing, so
 * it does not appear here.
 */
module SingleWire {
  import opened Frame

  /** A sampled pin level: `LOW` is 0, `HIGH` is 1. */
  type Level = x: int | 0 <= x <= 1
  const Low: Level := 0
  const High: Level := 1

  type u8 = x: int | 0 <= x < 0x100
  type u32 = x: int | 0 <= x < 0x1_0000_0000

  /** Spin budget of the wait for the end of the acknowledge LOW. */
  const AckBudget: nat := 10000
  /** Spin budget of the wait for the end of the acknowledge HIGH. */
  const ReleaseBudget: nat := 30000
  /** Spin budget of one bit, shared by its LOW wait and its HIGH wait. */
  const BitBudget: nat := 10000
  /** A high pulse strictly longer than this many microseconds is a 1. */
  const Threshold: nat := 50

  datatype Option<T> = None | Some(value: T)

  /**
   * `now - since` on `unsigned long`: the time between two `micros()`
   * readings, correct across one wrap-around of the counter.
   */
  function Elapsed(since: u32, now: u32): (d: u32)
    ensures since <= now ==> d == now - since
    ensures now < since ==> d == now + 0x1_0000_0000 - since
  {
    (now - since) % 0x1_0000_0000
  }

  /** The length the driver measures for the high pulse of bit `i`. */
  function Duration(clock: nat -> u32, i: nat): u32
  {
    Elapsed(clock(2 * i), clock(2 * i + 1))
  }

  /**
   * How a bounded wait ends: the line left the awaited level, at sample
   * `next - 1`, with `left` of the budget unspent; or the budget ran out.
   */
  datatype Wait = Changed(next: nat, left: nat) | TimedOut

  /**
   * `while (digitalRead(pin) == held) { if (loopCnt-- == 0) return false; }`
   * started at sample `from` with `loopCnt == budget`.
   */
  function SpinWhile(line: nat -> Level, from: nat, held: Level, budget: nat): (w: Wait)
    ensures w.Changed? ==> from < w.next <= from + budget + 1 && w.left == budget - (w.next - 1 - from)
    decreases budget
  {
    if line(from) != held then Changed(from + 1, budget)
    else if budget == 0 then TimedOut
    else SpinWhile(line, from + 1, held, budget - 1)
  }

  /** The line reads `held` at every sample from `lo` up to, not including, `hi`. */
  predicate Holds(line: nat -> Level, held: Level, lo: nat, hi: nat)
  {
    forall j :: lo <= j < hi ==> line(j) == held
  }

  /**
   * The wait times out exactly when the `budget + 1` samples from `from` on
   * all read `held`; otherwise it ends at the first sample that does not,
   * and each `held` sample before it cost one unit of the budget.
   */
  lemma {:induction false} SpinWhileEnds(line: nat -> Level, from: nat, held: Level, budget: nat)
    ensures var w := SpinWhile(line, from, held, budget);
      && (w.TimedOut? <==> Holds(line, held, from, from + budget + 1))
      && (w.Changed? ==>
            && from < w.next <= from + budget + 1
            && w.left == budget - (w.next - 1 - from)
            && line(w.next - 1) != held
            && Holds(line, held, from, w.next - 1))
    decreases budget
  {
    if line(from) == held && budget > 0 {
      SpinWhileEnds(line, from + 1, held, budget - 1);
    }
  }

  /** A wait that sees `d` samples of `held` and then another level ends there, `d` units poorer. */
  lemma SpinEndsAt(line: nat -> Level, from: nat, held: Level, budget: nat, d: nat)
    requires d <= budget && Holds(line, held, from, from + d) && line(from + d) != held
    ensures SpinWhile(line, from, held, budget) == Changed(from + d + 1, budget - d)
  {
    SpinWhileEnds(line, from, held, budget);
    var w := SpinWhile(line, from, held, budget);
    assert !Holds(line, held, from, from + budget + 1) by {
      assert line(from + d) != held;
    }
    assert w.next - 1 <= from + d;
  }

  /** The spin loop itself, sample by sample; it ends as `SpinWhile` says. */
  method PollWhile(line: nat -> Level, from: nat, held: Level, budget: nat) returns (w: Wait)
    ensures w == SpinWhile(line, from, held, budget)
  {
    var loopCnt := budget;
    var k := from;
    while line(k) == held
      invariant from <= k
      invariant SpinWhile(line, k, held, loopCnt) == SpinWhile(line, from, held, budget)
      decreases loopCnt
    {
      if loopCnt == 0 {
        return TimedOut;
      }
      loopCnt := loopCnt - 1;
      k := k + 1;
    }
    return Changed(k + 1, loopCnt);
  }

  /** The outcome of a receiving step: a value and the next sample, or a stall. */
  datatype Step<T> = Got(value: T, next: nat) | Stalled

  /**
   * One iteration of the bit loop, for bit `i`, starting at sample `from`:
   * wait while LOW with a fresh budget, then wait while HIGH with what is
   * left of it, and classify the measured high time against the threshold.
   */
  function ReadBit(line: nat -> Level, clock: nat -> u32, from: nat, i: nat): (s: Step<bool>)
    ensures s.Got? ==> from + 2 <= s.next && (s.value <==> Duration(clock, i) > Threshold)
  {
    match SpinWhile(line, from, Low, BitBudget)
    case TimedOut => Stalled
    case Changed(p, left) =>
      match SpinWhile(line, p, High, left)
      case TimedOut => Stalled
      case Changed(next, _) => Got(Duration(clock, i) > Threshold, next)
  }

  /** The first `n` iterations of the bit loop, starting at sample `from`. */
  function ReadBits(line: nat -> Level, clock: nat -> u32, from: nat, n: nat): (r: Step<seq<bool>>)
    ensures r.Got? ==> |r.value| == n && from + 2 * n <= r.next
    decreases n
  {
    if n == 0 then Got([], from)
    else
      match ReadBits(line, clock, from, n - 1)
      case Stalled => Stalled
      case Got(bs, p) =>
        match ReadBit(line, clock, p, n - 1)
        case Stalled => Stalled
        case Got(b, next) => Got(bs + [b], next)
  }

  /**
   * When the first `n` iterations complete, bit `i` is 1 exactly when the
   * `i`-th measured high pulse is longer than the threshold.
   */
  lemma {:induction false} ReadBitsValues(line: nat -> Level, clock: nat -> u32, from: nat, n: nat)
    requires ReadBits(line, clock, from, n).Got?
    ensures forall i :: 0 <= i < n ==> (ReadBits(line, clock, from, n).value[i] <==> Duration(clock, i) > Threshold)
    decreases n
  {
    if n > 0 {
      ReadBitsLast(line, clock, from, n);
      ReadBitsValues(line, clock, from, n - 1);
      var bs, all := ReadBits(line, clock, from, n - 1).value, ReadBits(line, clock, from, n).value;
      forall i | 0 <= i < n
        ensures all[i] <==> Duration(clock, i) > Threshold
      {
        if i < n - 1 {
          assert all[i] == bs[i];
        }
      }
    }
  }

  /** A completed run of `n > 0` iterations is a completed run of `n - 1` and one more bit. */
  lemma ReadBitsLast(line: nat -> Level, clock: nat -> u32, from: nat, n: nat)
    requires 0 < n && ReadBits(line, clock, from, n).Got?
    ensures ReadBits(line, clock, from, n - 1).Got?
    ensures ReadBits(line, clock, from, n).value
      == ReadBits(line, clock, from, n - 1).value + [Duration(clock, n - 1) > Threshold]
  {
  }

  /** One more iteration of the bit loop, when it completes, appends its bit. */
  lemma ReadBitsStep(line: nat -> Level, clock: nat -> u32, from: nat, n: nat, bs: seq<bool>, p: nat)
    requires ReadBits(line, clock, from, n) == Got(bs, p)
    ensures ReadBit(line, clock, p, n).Stalled? ==> ReadBits(line, clock, from, n + 1).Stalled?
    ensures ReadBit(line, clock, p, n).Got? ==>
      ReadBits(line, clock, from, n + 1) == Got(bs + [ReadBit(line, clock, p, n).value], ReadBit(line, clock, p, n).next)
  {
  }

  /** Once the bit loop has stalled it stays stalled. */
  lemma {:induction false} StalledStaysStalled(line: nat -> Level, clock: nat -> u32, from: nat, n: nat, m: nat)
    requires n <= m
    requires ReadBits(line, clock, from, n).Stalled?
    ensures ReadBits(line, clock, from, m).Stalled?
    decreases m
  {
    if n < m {
      StalledStaysStalled(line, clock, from, n, m - 1);
      StallStep(line, clock, from, m);
    }
  }

  /** One more iteration after a stall is still a stall. */
  lemma StallStep(line: nat -> Level, clock: nat -> u32, from: nat, m: nat)
    requires 0 < m && ReadBits(line, clock, from, m - 1).Stalled?
    ensures ReadBits(line, clock, from, m).Stalled?
  {
  }

  /**
   * What one call of `read` receives: the acknowledge handshake, then the
   * 40 bits folded into a frame; `None` when any wait runs out of budget.
   */
  function Receive(line: nat -> Level, clock: nat -> u32): Option<Frame>
  {
    match SpinWhile(line, 0, Low, AckBudget)
    case TimedOut => None
    case Changed(p, _) =>
      match SpinWhile(line, p, High, ReleaseBudget)
      case TimedOut => None
      case Changed(start, _) =>
        match ReadBits(line, clock, start, FrameBits)
        case Stalled => None
        case Got(bs, _) => Some(FrameOf(bs))
  }

  /** `Receive` once both handshake waits have ended at `ack` and `start`. */
  lemma ReceiveAfterHandshake(line: nat -> Level, clock: nat -> u32, ack: Wait, start: nat)
    requires SpinWhile(line, 0, Low, AckBudget) == ack && ack.Changed?
    requires SpinWhile(line, ack.next, High, ReleaseBudget).Changed?
    requires SpinWhile(line, ack.next, High, ReleaseBudget).next == start
    ensures ReadBits(line, clock, start, FrameBits).Stalled? ==> Receive(line, clock).None?
    ensures ReadBits(line, clock, start, FrameBits).Got? ==>
      Receive(line, clock) == Some(FrameOf(ReadBits(line, clock, start, FrameBits).value))
  {
  }

  /**
   * The bit loop, sample by sample: the LOW wait with a fresh budget, a
   * `micros()` reading, the HIGH wait with what is left of the budget, a
   * second reading. It ends as `ReadBit` says.
   */
  method PollBit(line: nat -> Level, clock: nat -> u32, from: nat, i: nat) returns (s: Step<bool>)
    ensures s == ReadBit(line, clock, from, i)
  {
    var w := PollWhile(line, from, Low, BitBudget);
    if w.TimedOut? {
      return Stalled;
    }
    var t := clock(2 * i);
    w := PollWhile(line, w.next, High, w.left);
    if w.TimedOut? {
      return Stalled;
    }
    var now := clock(2 * i + 1);
    return Got(Elapsed(t, now) > Threshold, w.next);
  }

  /**
   * Bit `i` of a received frame (byte `i / 8`, position `7 - i % 8`) is set
   * exactly when the `i`-th high pulse measured longer than 50 microseconds.
   */
  lemma ReceivedBits(line: nat -> Level, clock: nat -> u32)
    requires Receive(line, clock).Some?
    ensures forall i :: 0 <= i < FrameBits ==> (Bit(Receive(line, clock).value, i) <==> Duration(clock, i) > Threshold)
  {
    var start := SpinWhile(line, SpinWhile(line, 0, Low, AckBudget).next, High, ReleaseBudget).next;
    ReadBitsValues(line, clock, start, FrameBits);
    FrameOfBits(ReadBits(line, clock, start, FrameBits).value);
  }

  /**
   * The received frame is determined by the measured pulses: when a transfer
   * completes and its pulses classify as the bits of `f`, the frame is `f`.
   */
  lemma ReceiveDetermined(line: nat -> Level, clock: nat -> u32, f: Frame)
    requires Receive(line, clock).Some?
    requires forall i :: 0 <= i < FrameBits ==> (Duration(clock, i) > Threshold <==> Bit(f, i))
    ensures Receive(line, clock) == Some(f)
  {
    ReceivedBits(line, clock);
    FrameFromBits(Receive(line, clock).value, f);
  }

  /**
   * A line that stays LOW for the first 10001 samples after release: the
   * first wait gives up and nothing is received.
   */
  lemma NoResponse(line: nat -> Level, clock: nat -> u32)
    requires Holds(line, Low, 0, AckBudget + 1)
    ensures Receive(line, clock).None?
  {
    SpinWhileEnds(line, 0, Low, AckBudget);
  }

  /**
   * A line that leaves LOW but then stays HIGH for 30001 samples: the second
   * handshake wait gives up and nothing is received.
   */
  lemma NoRelease(line: nat -> Level, clock: nat -> u32, p: nat)
    requires p <= AckBudget
    requires Holds(line, Low, 0, p) && line(p) == High
    requires Holds(line, High, p + 1, p + 2 + ReleaseBudget)
    ensures Receive(line, clock).None?
  {
    SpinEndsAt(line, 0, Low, AckBudget, p);
    SpinWhileEnds(line, p + 1, High, ReleaseBudget);
  }

  /**
   * The LOW wait and the HIGH wait of one bit draw on one budget: a bit
   * whose line shows `lows` LOW samples, then a HIGH sample that ends the
   * first wait, then `highs` further HIGH samples and a LOW one, is received
   * exactly when `lows + highs` is at most 10000.
   */
  lemma SharedBitBudget(line: nat -> Level, clock: nat -> u32, from: nat, i: nat, lows: nat, highs: nat)
    requires Holds(line, Low, from, from + lows) && line(from + lows) == High
    requires Holds(line, High, from + lows + 1, from + lows + 1 + highs)
    requires line(from + lows + 1 + highs) == Low
    ensures ReadBit(line, clock, from, i).Got? <==> lows + highs <= BitBudget
    ensures ReadBit(line, clock, from, i).Got? ==> ReadBit(line, clock, from, i).next == from + lows + highs + 2
  {
    if lows <= BitBudget {
      SpinEndsAt(line, from, Low, BitBudget, lows);
      HighWait(line, clock, from, i, from + lows + 1, BitBudget - lows, highs);
    } else {
      SpinWhileEnds(line, from, Low, BitBudget);
      assert Holds(line, Low, from, from + BitBudget + 1);
      assert ReadBit(line, clock, from, i) == Stalled;
    }
  }

  /** The HIGH wait of a bit whose LOW wait ended at `p - 1` with `left` to spare. */
  lemma HighWait(line: nat -> Level, clock: nat -> u32, from: nat, i: nat, p: nat, left: nat, highs: nat)
    requires SpinWhile(line, from, Low, BitBudget) == Changed(p, left)
    requires Holds(line, High, p, p + highs) && line(p + highs) == Low
    ensures ReadBit(line, clock, from, i).Got? <==> highs <= left
    ensures ReadBit(line, clock, from, i).Got? ==> ReadBit(line, clock, from, i).next == p + highs + 1
  {
    if highs <= left {
      SpinEndsAt(line, p, High, left, highs);
    } else {
      SpinWhileEnds(line, p, High, left);
      assert Holds(line, High, p, p + left + 1);
    }
  }
}
