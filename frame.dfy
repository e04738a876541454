/**
 * The 5-byte raw frame a DHT11 sends: humidity, humidity decimals,
 * temperature, temperature decimals, checksum. The driver folds the 40
 * received bits into it most significant bit first, and accepts it when the
 * last byte matches its two-byte checksum.
 */
module Frame {

  /** The 5 bytes `bits[5]` of the driver. */
  type Frame = f: seq<bv8> | |f| == 5 witness [0, 0, 0, 0, 0]

  /** Number of bits the sensor sends in one frame. */
  const FrameBits: nat := 40

  /** The value of a byte as an `int`, as when a `uint8_t` is assigned to an `int`. */
  function ByteValue(b: bv8): (n: int)
    ensures 0 <= n < 256
  {
    b as int
  }

  /** The value `1 << cnt` that the driver ORs into a byte for bit position `cnt`. */
  function Mask(cnt: nat): bv8
    requires cnt < 8
  {
    (1 as bv8) << cnt
  }

  /**
   * Bit `i` of the stream, counted from the start of the transfer: it lives
   * in byte `i / 8` at position `7 - i % 8` (most significant bit first).
   */
  predicate Bit(f: Frame, i: nat)
    requires i < FrameBits
  {
    f[i / 8] & Mask(7 - i % 8) != 0
  }

  /** Setting one position of a byte leaves every other position as it was. */
  lemma OrMask(x: bv8, a: nat, b: nat)
    requires a < 8 && b < 8
    ensures (x | Mask(a)) & Mask(b) != 0 <==> a == b || x & Mask(b) != 0
  {
  }

  /**
   * The frame the driver holds after folding the bits `bs` into an all-zero
   * frame, one at a time: a set bit ORs its mask into its byte, a clear bit
   * leaves the frame as it is.
   */
  function FrameOf(bs: seq<bool>): Frame
    requires |bs| <= FrameBits
    decreases |bs|
  {
    if bs == [] then [0, 0, 0, 0, 0]
    else
      var n := |bs| - 1;
      var f := FrameOf(bs[..n]);
      if bs[n] then f[n / 8 := f[n / 8] | Mask(7 - n % 8)] else f
  }

  /**
   * Bit `i` of the folded frame is exactly `bs[i]`, and the bits not yet
   * received are still zero.
   */
  lemma {:induction false} FrameOfBits(bs: seq<bool>)
    requires |bs| <= FrameBits
    ensures forall i :: 0 <= i < |bs| ==> (Bit(FrameOf(bs), i) <==> bs[i])
    ensures forall i :: |bs| <= i < FrameBits ==> !Bit(FrameOf(bs), i)
    decreases |bs|
  {
    if bs != [] {
      var n := |bs| - 1;
      var prefix := bs[..n];
      FrameOfBits(prefix);
      var f := FrameOf(prefix);
      if bs[n] {
        SetBit(f, n);
        assert FrameOf(bs) == f[n / 8 := f[n / 8] | Mask(7 - n % 8)];
      } else {
        assert FrameOf(bs) == f;
      }
      forall i | 0 <= i < n
        ensures bs[i] == prefix[i]
      {
      }
      forall i | |bs| <= i < FrameBits
        ensures !Bit(FrameOf(bs), i)
      {
        assert !Bit(f, i);
      }
    }
  }

  /** ORing in the mask of bit `n` sets bit `n` and leaves every other bit as it was. */
  lemma SetBit(f: Frame, n: nat)
    requires n < FrameBits
    ensures forall i :: 0 <= i < FrameBits ==>
      (Bit(f[n / 8 := f[n / 8] | Mask(7 - n % 8)], i) <==> i == n || Bit(f, i))
  {
    var g := f[n / 8 := f[n / 8] | Mask(7 - n % 8)];
    forall i | 0 <= i < FrameBits
      ensures Bit(g, i) <==> i == n || Bit(f, i)
    {
      if i / 8 == n / 8 {
        OrMask(f[n / 8], 7 - n % 8, 7 - i % 8);
      }
    }
  }

  /** Folding one more bit: a 1 ORs its mask into its byte, a 0 changes nothing. */
  lemma FoldStep(bs: seq<bool>, b: bool)
    requires |bs| < FrameBits
    ensures var n := |bs|;
      FrameOf(bs + [b]) == if b then FrameOf(bs)[n / 8 := FrameOf(bs)[n / 8] | Mask(7 - n % 8)] else FrameOf(bs)
  {
    assert (bs + [b])[..|bs|] == bs;
  }

  /**
   * The driver's update for one more bit, on a frame holding the bits so
   * far: with `idx` and `cnt` at the bit's byte and position, ORing in the
   * mask for a 1, and nothing for a 0, holds the bits with this one added.
   */
  lemma FoldInto(f: Frame, bs: seq<bool>, b: bool, idx: nat, cnt: nat)
    requires |bs| < FrameBits && f == FrameOf(bs)
    requires cnt < 8 && 8 * idx + 7 - cnt == |bs|
    ensures (if b then f[idx := f[idx] | Mask(cnt)] else f) == FrameOf(bs + [b])
  {
    assert idx == |bs| / 8 && cnt == 7 - |bs| % 8;
    FoldStep(bs, b);
  }

  /** The 40 bits of a frame in the order the sensor sends them. */
  function BitsOf(f: Frame): (bs: seq<bool>)
    ensures |bs| == FrameBits
    ensures forall i :: 0 <= i < FrameBits ==> bs[i] == Bit(f, i)
  {
    seq(FrameBits, i requires 0 <= i < FrameBits => Bit(f, i))
  }

  /** A byte is determined by its eight bit positions. */
  lemma ByteFromBits(x: bv8, y: bv8)
    requires forall cnt :: 0 <= cnt < 8 ==> (x & Mask(cnt) != 0 <==> y & Mask(cnt) != 0)
    ensures x == y
  {
    assert x & Mask(0) != 0 <==> y & Mask(0) != 0;
    assert x & Mask(1) != 0 <==> y & Mask(1) != 0;
    assert x & Mask(2) != 0 <==> y & Mask(2) != 0;
    assert x & Mask(3) != 0 <==> y & Mask(3) != 0;
    assert x & Mask(4) != 0 <==> y & Mask(4) != 0;
    assert x & Mask(5) != 0 <==> y & Mask(5) != 0;
    assert x & Mask(6) != 0 <==> y & Mask(6) != 0;
    assert x & Mask(7) != 0 <==> y & Mask(7) != 0;
  }

  /** Two frames that agree on all 40 bits are the same frame. */
  lemma FrameFromBits(f: Frame, g: Frame)
    requires forall i :: 0 <= i < FrameBits ==> (Bit(f, i) <==> Bit(g, i))
    ensures f == g
  {
    forall k | 0 <= k < 5
      ensures f[k] == g[k]
    {
      forall cnt | 0 <= cnt < 8
        ensures f[k] & Mask(cnt) != 0 <==> g[k] & Mask(cnt) != 0
      {
        var i := 8 * k + 7 - cnt;
        assert i / 8 == k && 7 - i % 8 == cnt;
        assert Bit(f, i) <==> Bit(g, i);
      }
      ByteFromBits(f[k], g[k]);
    }
  }

  /**
   * Round trip: folding the 40 bits of any frame, most significant first,
   * into a zeroed frame gives that frame back.
   */
  lemma FoldBitsOf(f: Frame)
    ensures FrameOf(BitsOf(f)) == f
  {
    FrameOfBits(BitsOf(f));
    FrameFromBits(FrameOf(BitsOf(f)), f);
  }

  /**
   * The acceptance test of the driver: byte 4 equals the low 8 bits of the
   * sum of byte 0 and byte 2 (the sum of two `bv8` values wraps modulo 256,
   * as `& 0xFF` does). Bytes 1 and 3 take no part in it.
   */
  predicate ChecksumOk(f: Frame)
  {
    f[4] == f[0] + f[2]
  }

  /** The checksum the DHT11 protocol defines: the low 8 bits of the sum of bytes 0 to 3. */
  predicate ProtocolChecksumOk(f: Frame)
  {
    f[4] == f[0] + f[1] + f[2] + f[3]
  }

  /** Whether a frame is accepted depends on bytes 0, 2 and 4 only. */
  lemma ChecksumIgnoresDecimals(f: Frame, g: Frame)
    requires f[0] == g[0] && f[2] == g[2] && f[4] == g[4]
    ensures ChecksumOk(f) <==> ChecksumOk(g)
  {
  }

  /** When both decimal bytes are zero, the two-byte test agrees with the protocol's checksum. */
  lemma ChecksumAgreesWithoutDecimals(f: Frame)
    requires f[1] == 0 && f[3] == 0
    ensures ChecksumOk(f) <==> ProtocolChecksumOk(f)
  {
  }

  /**
   * A frame carrying a decimal byte, with a correct protocol checksum, is
   * refused by the two-byte test.
   */
  lemma ChecksumRejectsDecimalFrame()
    ensures var f: Frame := [45, 0, 24, 5, 74]; ProtocolChecksumOk(f) && !ChecksumOk(f)
  {
  }

  /** The frame `f` with bit position `cnt` of byte `k` inverted. */
  function Flip(f: Frame, k: nat, cnt: nat): (g: Frame)
    requires k < 5 && cnt < 8
    ensures forall j :: 0 <= j < 5 && j != k ==> g[j] == f[j]
    ensures g[k] != f[k]
  {
    f[k := f[k] ^ Mask(cnt)]
  }

  /** A changed humidity byte in an accepted frame is caught. */
  lemma ChecksumCatchesHumidityChange(f: Frame, g: Frame)
    requires ChecksumOk(f)
    requires g[0] != f[0] && g[2] == f[2] && g[4] == f[4]
    ensures !ChecksumOk(g)
  {
  }

  /** A changed temperature byte in an accepted frame is caught. */
  lemma ChecksumCatchesTemperatureChange(f: Frame, g: Frame)
    requires ChecksumOk(f)
    requires g[0] == f[0] && g[2] != f[2] && g[4] == f[4]
    ensures !ChecksumOk(g)
  {
  }

  /** A changed checksum byte in an accepted frame is caught. */
  lemma ChecksumCatchesChecksumChange(f: Frame, g: Frame)
    requires ChecksumOk(f)
    requires g[0] == f[0] && g[2] == f[2] && g[4] != f[4]
    ensures !ChecksumOk(g)
  {
  }

  /**
   * Changing any one byte of an accepted frame: a change to byte 0, 2 or 4
   * makes the driver refuse it; a change to byte 1 or 3 goes unnoticed.
   */
  lemma ChecksumCatchesByteChange(f: Frame, g: Frame, k: nat)
    requires ChecksumOk(f)
    requires k < 5 && g[k] != f[k]
    requires forall j :: 0 <= j < 5 && j != k ==> g[j] == f[j]
    ensures ChecksumOk(g) <==> k == 1 || k == 3
  {
    if k == 0 {
      ChecksumCatchesHumidityChange(f, g);
    } else if k == 2 {
      ChecksumCatchesTemperatureChange(f, g);
    } else if k == 4 {
      ChecksumCatchesChecksumChange(f, g);
    } else {
      ChecksumIgnoresDecimals(f, g);
    }
  }

  /** In particular, a single inverted bit in byte 0, 2 or 4 is always caught. */
  lemma ChecksumCatchesSingleFlip(f: Frame, k: nat, cnt: nat)
    requires ChecksumOk(f)
    requires k < 5 && cnt < 8
    ensures ChecksumOk(Flip(f, k, cnt)) <==> k == 1 || k == 3
  {
    ChecksumCatchesByteChange(f, Flip(f, k, cnt), k);
  }
}
