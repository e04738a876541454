/**
 * The `MyDHT11` driver object: the data pin it owns and the last humidity
 * and temperature it decoded. `Read` runs one transfer over the line and
 * clock it is given (see module SingleWire) and reports whether the frame
 * passed the two-byte checksum.
 */
module Dht11Driver {
  import opened Frame
  import opened SingleWire

  /**
   * The wait `waitForState` performs comes to an end on this line and clock:
   * some sample reads `state`, or some `micros()` reading lies more than
   * `timeout` after the first one.
   */
  ghost predicate WaitEnds(line: nat -> Level, clock: nat -> u32, state: u8, timeout: u32)
  {
    exists k: nat :: !StillWaiting(line, clock, state, timeout, k)
  }

  /**
   * Sample `j` of `waitForState` neither found `state` nor timed out: the
   * loop goes on to sample `j + 1`.
   */
  predicate StillWaiting(line: nat -> Level, clock: nat -> u32, state: u8, timeout: u32, j: nat)
  {
    line(j) != state && Elapsed(clock(0), clock(j + 1)) <= timeout
  }

  /**
   * With the largest `timeout`, no modular difference of `micros()` readings
   * exceeds it: the wait ends only if the line reaches `state`.
   */
  lemma MaxTimeoutWaitsForState(line: nat -> Level, clock: nat -> u32, state: u8)
    ensures WaitEnds(line, clock, state, 0xFFFF_FFFF) <==> exists k: nat :: line(k) == state
  {
    if WaitEnds(line, clock, state, 0xFFFF_FFFF) {
      var k: nat :| !StillWaiting(line, clock, state, 0xFFFF_FFFF, k);
      assert line(k) == state;
    } else {
      forall k: nat
        ensures line(k) != state
      {
        assert StillWaiting(line, clock, state, 0xFFFF_FFFF, k);
      }
    }
  }

  /** The pair of stored readings of a driver. */
  datatype Readings = Readings(humidity: int, temperature: int)

  /**
   * What `read` leaves stored, as written: a frame that arrived in full
   * replaces the readings whether or not it passes the checksum; a timeout
   * keeps them.
   */
  function StoredAfter(prev: Readings, r: Option<Frame>): (s: Readings)
    ensures r.Some? ==> s.humidity == ByteValue(r.value[0]) && s.temperature == ByteValue(r.value[2])
    ensures r.None? ==> s == prev
  {
    match r
    case None => prev
    case Some(f) => Readings(ByteValue(f[0]), ByteValue(f[2]))
  }

  /**
   * What the getters are documented to return, the last successful reading:
   * only a frame that passes the checksum replaces the stored readings.
   */
  function LastSuccessful(prev: Readings, r: Option<Frame>): (s: Readings)
    ensures s != prev ==> r.Some? && ChecksumOk(r.value)
    ensures r.Some? && ChecksumOk(r.value) ==>
      s.humidity == ByteValue(r.value[0]) && s.temperature == ByteValue(r.value[2])
  {
    if r.Some? && ChecksumOk(r.value) then StoredAfter(prev, r) else prev
  }

  /** The two agree on every accepted frame and on every timeout. */
  lemma StoredAgreesWhenAccepted(prev: Readings, r: Option<Frame>)
    requires r.None? || ChecksumOk(r.value)
    ensures StoredAfter(prev, r) == LastSuccessful(prev, r)
  {
  }

  /**
   * A refused frame separates them: after 50, 0, 20, 0, 69 (50 + 20 is not
   * 69) the driver holds 50 and 20, where the last successful readings are
   * still 0 and 0.
   */
  lemma RefusedFrameOverwrites()
    ensures var f: Frame := [50, 0, 20, 0, 69];
      && !ChecksumOk(f)
      && StoredAfter(Readings(0, 0), Some(f)) == Readings(50, 20)
      && LastSuccessful(Readings(0, 0), Some(f)) == Readings(0, 0)
  {
  }

  class MyDHT11 {
    /** The GPIO pin of the sensor's data line. */
    const pin: u8
    /** The humidity stored by the last completed transfer, in percent. */
    var humidity: int
    /** The temperature stored by the last completed transfer, in degrees Celsius. */
    var temperature: int

    /** The stored readings are byte values: 0 at first, then bytes of received frames. */
    ghost predicate Valid()
      reads this
    {
      0 <= humidity < 256 && 0 <= temperature < 256
    }

    /** A driver for the sensor on `pin`, with both stored readings 0. */
    constructor (pin: u8)
      ensures Valid()
      ensures this.pin == pin && humidity == 0 && temperature == 0
    {
      this.pin := pin;
      temperature := 0;
      humidity := 0;
    }

    /**
     * One transfer: the handshake waits, the 40-bit loop with its shared
     * per-bit budget and the fold into `bits`, then the update of the stored
     * readings and the checksum test.
     *
     * It succeeds exactly when the whole frame arrives and passes the
     * two-byte checksum. Once all 40 bits have arrived, humidity and
     * temperature are bytes 0 and 2 of the frame, even when the checksum
     * then fails; when a wait times out they keep their previous values.
     */
    method Read(line: nat -> Level, clock: nat -> u32) returns (ok: bool)
      requires Valid()
      modifies this
      ensures Valid()
      ensures var r := Receive(line, clock);
        && (ok <==> r.Some? && ChecksumOk(r.value))
        && (r.Some? ==> humidity == ByteValue(r.value[0]) && temperature == ByteValue(r.value[2]))
        && (r.None? ==> humidity == old(humidity) && temperature == old(temperature))
      ensures Readings(humidity, temperature) == StoredAfter(old(Readings(humidity, temperature)), Receive(line, clock))
    {
      // The wake pulse drives the pin and samples nothing.
      var w := PollWhile(line, 0, Low, AckBudget);
      if w.TimedOut? {
        return false;
      }
      ghost var ack := w;
      w := PollWhile(line, w.next, High, ReleaseBudget);
      if w.TimedOut? {
        return false;
      }
      ReceiveAfterHandshake(line, clock, ack, w.next);

      var bits, complete := ReadFrame(line, clock, w.next);
      if !complete {
        return false;
      }
      humidity := ByteValue(bits[0]);
      temperature := ByteValue(bits[2]);
      ok := ChecksumOk(bits[..]);
    }

    /**
     * The bit loop of `read`, from sample `start` on: each bit is read with
     * `PollBit` and ORed into `bits[idx]` at position `cnt`, which then steps
     * down, moving to the next byte after position 0. It completes exactly
     * when all 40 iterations do, and `bits` then holds the received frame.
     */
    static method ReadFrame(line: nat -> Level, clock: nat -> u32, start: nat) returns (bits: array<bv8>, complete: bool)
      ensures fresh(bits)
      ensures complete <==> ReadBits(line, clock, start, FrameBits).Got?
      ensures complete ==> bits[..] == FrameOf(ReadBits(line, clock, start, FrameBits).value)
    {
      bits := new bv8[5] [0, 0, 0, 0, 0];
      var cnt: nat := 7;
      var idx: nat := 0;
      ghost var received: seq<bool> := [];
      var p := start;   // digitalRead calls so far
      for i := 0 to FrameBits
        invariant cnt < 8 && 8 * idx + 7 - cnt == i
        invariant |received| == i
        invariant ReadBits(line, clock, start, i) == Got(received, p)
        invariant bits[..] == FrameOf(received)
        modifies bits
      {
        var s := PollBit(line, clock, p, i);
        ReadBitsStep(line, clock, start, i, received, p);
        if s.Stalled? {
          StalledStaysStalled(line, clock, start, i + 1, FrameBits);
          return bits, false;
        }

        FoldInto(bits[..], received, s.value, idx, cnt);
        if s.value {
          bits[idx] := bits[idx] | Mask(cnt);
        }
        received := received + [s.value];
        p := s.next;

        if cnt == 0 {
          cnt := 7;
          idx := idx + 1;
        } else {
          cnt := cnt - 1;
        }
      }
      assert idx == 5 && cnt == 7;
      complete := true;
    }

    /** The stored temperature, a byte value; reading it changes nothing. */
    function GetTemperature(): (t: int)
      requires Valid()
      reads this
      ensures 0 <= t < 256 && t == temperature
    {
      temperature
    }

    /** The stored humidity, a byte value; reading it changes nothing. */
    function GetHumidity(): (h: int)
      requires Valid()
      reads this
      ensures 0 <= h < 256 && h == humidity
    {
      humidity
    }

    /**
     * Poll the line until it reads `state`, giving up once `micros()` has
     * moved more than `timeout` past its first reading (a difference taken
     * modulo 2^32). It reports success exactly when some sample reads
     * `state` before any clock reading exceeds the timeout, and failure
     * exactly when a clock reading exceeds it first.
     */
    method WaitForState(state: u8, timeout: u32, line: nat -> Level, clock: nat -> u32) returns (found: bool)
      requires WaitEnds(line, clock, state, timeout)
      ensures found ==> exists k: nat ::
        (line(k) == state && forall j: nat :: j < k ==> StillWaiting(line, clock, state, timeout, j))
      ensures !found ==> exists k: nat ::
        (line(k) != state && Elapsed(clock(0), clock(k + 1)) > timeout
         && forall j: nat :: j < k ==> StillWaiting(line, clock, state, timeout, j))
    {
      ghost var stop: nat :| !StillWaiting(line, clock, state, timeout, stop);
      var startTime := clock(0);
      var p, q := 0, 1;
      while line(p) != state
        invariant q == p + 1 && p <= stop
        invariant forall j: nat :: j < p ==> StillWaiting(line, clock, state, timeout, j)
        decreases stop - p
      {
        if Elapsed(startTime, clock(q)) > timeout {
          return false;
        }
        p, q := p + 1, q + 1;
      }
      return true;
    }
  }
}
