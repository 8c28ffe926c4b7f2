/**
 * The bit-serial CRC shared by the slot manager (sys/fota/fota.c) and the
 * metadata generator (examples/OTA_example/generate-metadata.c): both files
 * hold the same `crc16` step. Each message bit is shifted into bit 0 of the
 * 16-bit register, and the ITU-T V.41 polynomial 0x1021 is XORed in whenever
 * the bit shifted out at the top was set. Feeding two zero bytes after the
 * data flushes the register; the result is then the CRC-16/XMODEM of the data
 * (register initialised to 0, most significant bit first, no final XOR),
 * proved below against a direct reference definition.
 *
 * The register is modelled as its sixteen bits, most significant first:
 * `<<= 1` drops the first bit and appends a zero, `|= 1` sets the last one,
 * and `^` is bitwise. `BitsOf` and `ValueOf` convert to and from the `uint16`
 * the C code stores.
 */
module Crc {
  import opened UInt

  type Bits = seq<bool>

  function Pow2(n: nat): (r: nat)
    ensures r > 0
  {
    if n == 0 then 1 else 2 * Pow2(n - 1)
  }

  /** The low `n` bits of `x`, most significant first. */
  function BitsOf(x: nat, n: nat): (r: Bits)
    ensures |r| == n
  {
    if n == 0 then [] else BitsOf(x / 2, n - 1) + [x % 2 == 1]
  }

  /** The unsigned number a bit string spells, most significant bit first. */
  function ValueOf(r: Bits): (x: nat)
    ensures x < Pow2(|r|)
  {
    if r == [] then 0 else 2 * ValueOf(r[..|r| - 1]) + (if r[|r| - 1] then 1 else 0)
  }

  lemma {:induction false} ValueOfBitsOf(x: nat, n: nat)
    requires x < Pow2(n)
    ensures ValueOf(BitsOf(x, n)) == x
  {
    if n > 0 {
      ValueOfBitsOf(x / 2, n - 1);
      assert BitsOf(x, n)[..n - 1] == BitsOf(x / 2, n - 1);
    }
  }

  lemma {:induction false} BitsOfValueOf(r: Bits)
    ensures BitsOf(ValueOf(r), |r|) == r
  {
    if r != [] {
      var init := r[..|r| - 1];
      BitsOfValueOf(init);
      assert r == init + [r[|r| - 1]];
    }
  }

  /** The 16-bit register holding 0. */
  const ZERO: Bits := BitsOf(0, 16)

  /** The generator polynomial `poly`, 0x1021. */
  const POLY: Bits := BitsOf(0x1021, 16)

  lemma Pow2Of16()
    ensures Pow2(16) == 0x1_0000
  {
    assert Pow2(4) == 16;
    assert Pow2(8) == 256;
    assert Pow2(12) == 4096;
  }

  lemma ZeroValue()
    ensures ValueOf(ZERO) == 0 && forall i :: 0 <= i < 16 ==> !ZERO[i]
  {
    BitsOfZero(16);
    ValueOfBitsOf(0, 16);
  }

  lemma PolyValue()
    ensures ValueOf(POLY) == 0x1021
  {
    Pow2Of16();
    ValueOfBitsOf(0x1021, 16);
  }

  lemma {:induction false} BitsOfZero(n: nat)
    ensures BitsOf(0, n) == seq(n, i => false)
  {
    if n > 0 {
      BitsOfZero(n - 1);
    }
  }

  function Xor(a: Bits, b: Bits): (r: Bits)
    requires |a| == |b|
    ensures |r| == |a|
  {
    seq(|a|, i requires 0 <= i < |a| => a[i] != b[i])
  }

  /** Bit `k` of `val`, counted from the most significant bit. */
  function Bit(val: uint8, k: nat): bool
    requires k < 8
  {
    BitsOf(val, 8)[k]
  }

  /** One turn of the `crc16` loop: shift, take in `bit` at bit 0, reduce by the polynomial. */
  function BitStep(crc: Bits, bit: bool): (r: Bits)
    requires |crc| == 16
    ensures |r| == 16
  {
    var shifted := crc[1..] + [bit];
    if crc[0] then Xor(shifted, POLY) else shifted
  }

  /** The first `n` bits of `val`, most significant first, fed to the register. */
  function StepBits(crc: Bits, val: uint8, n: nat): (r: Bits)
    requires |crc| == 16 && n <= 8
    ensures |r| == 16
  {
    if n == 0 then crc else BitStep(StepBits(crc, val, n - 1), Bit(val, n - 1))
  }

  /** `crc16(crc, val)`: all eight bits of `val`. */
  function ByteStep(crc: Bits, val: uint8): (r: Bits)
    requires |crc| == 16
    ensures |r| == 16
  {
    StepBits(crc, val, 8)
  }

  /** The register after feeding `data` byte by byte. */
  function Feed(crc: Bits, data: Bytes): (r: Bits)
    requires |crc| == 16
    ensures |r| == 16
  {
    if data == [] then crc else ByteStep(Feed(crc, data[..|data| - 1]), data[|data| - 1])
  }

  /** The two closing `crc16(crc, 0)` calls. */
  function Flush(crc: Bits): (r: Bits)
    requires |crc| == 16
    ensures |r| == 16
  {
    ByteStep(ByteStep(crc, 0), 0)
  }

  /** The CRC both tools compute over an image: the data from a zero register, then the flush. */
  function ImageCrc(data: Bytes): uint16
  {
    Pow2Of16();
    ValueOf(Flush(Feed(ZERO, data)))
  }

  /**
   * `crc16` as written: eight turns, each testing the top bit of `val` and
   * then shifting `val` left within its byte.
   */
  method Crc16(crc: Bits, val: uint8) returns (r: Bits)
    requires |crc| == 16
    ensures r == ByteStep(crc, val)
  {
    r := crc;
    var v := BitsOf(val, 8);
    var cnt := 0;
    while cnt < 8
      invariant 0 <= cnt <= 8 && |r| == 16
      invariant v == BitsOf(val, 8)[cnt..] + seq(cnt, i => false)
      invariant r == StepBits(crc, val, cnt)
    {
      var msb := r[0];
      r := r[1..] + [false];
      if v[0] {
        r := r[..15] + [true];
      }
      if msb {
        r := Xor(r, POLY);
      }
      cnt, v := cnt + 1, v[1..] + [false];
    }
  }

  lemma FeedSnoc(crc: Bits, data: Bytes, b: uint8)
    requires |crc| == 16
    ensures Feed(crc, data + [b]) == ByteStep(Feed(crc, data), b)
  {
    assert (data + [b])[..|data|] == data;
  }

  lemma {:induction false} FeedAppend(crc: Bits, a: Bytes, b: Bytes)
    requires |crc| == 16
    ensures Feed(crc, a + b) == Feed(Feed(crc, a), b)
    decreases |b|
  {
    if b == [] {
      assert a + b == a;
    } else {
      var last := b[|b| - 1];
      assert a + b == (a + b[..|b| - 1]) + [last];
      FeedSnoc(crc, a + b[..|b| - 1], last);
      FeedAppend(crc, a, b[..|b| - 1]);
    }
  }

  /** The `for (idx = 0; idx < 4; idx++)` loop both tools run over a word. */
  method FeedBytes(crc: Bits, data: Bytes) returns (r: Bits)
    requires |crc| == 16
    ensures r == Feed(crc, data)
  {
    r := crc;
    var idx := 0;
    while idx < |data|
      invariant idx <= |data| && r == Feed(crc, data[..idx])
    {
      r := Crc16(r, data[idx]);
      FeedSnoc(crc, data[..idx], data[idx]);
      assert data[..idx + 1] == data[..idx] + [data[idx]];
      idx := idx + 1;
    }
    assert data[..idx] == data;
  }

  // ---------------------------------------------------------------------------
  // The reference: CRC-16/XMODEM computed directly
  // ---------------------------------------------------------------------------

  /** One bit of the direct CRC: the message bit is XORed into the feedback, not shifted in. */
  function DirectBit(crc: Bits, bit: bool): (r: Bits)
    requires |crc| == 16
    ensures |r| == 16
  {
    var shifted := crc[1..] + [false];
    if crc[0] != bit then Xor(shifted, POLY) else shifted
  }

  function DirectBits(crc: Bits, val: uint8, n: nat): (r: Bits)
    requires |crc| == 16 && n <= 8
    ensures |r| == 16
  {
    if n == 0 then crc else DirectBit(DirectBits(crc, val, n - 1), Bit(val, n - 1))
  }

  function DirectFeed(crc: Bits, data: Bytes): (r: Bits)
    requires |crc| == 16
    ensures |r| == 16
  {
    if data == [] then crc else DirectBits(DirectFeed(crc, data[..|data| - 1]), data[|data| - 1], 8)
  }

  /** CRC-16/XMODEM (polynomial 0x1021, initial value 0, no reflection, no final XOR). */
  function Xmodem(data: Bytes): uint16
  {
    Pow2Of16();
    ValueOf(DirectFeed(ZERO, data))
  }

  /**
   * The shift-in CRC with two zero bytes appended is the direct CRC: the value
   * the firmware tools compute is the CRC-16/XMODEM of the image.
   */
  lemma ImageCrcIsXmodem(data: Bytes)
    ensures ImageCrc(data) == Xmodem(data)
  {
    FlushIsZeros(Feed(ZERO, data));
    FeedCommutes(ZERO, data);
    ZerosOfZero(16);
  }

  lemma {:induction false} FeedCommutes(crc: Bits, data: Bytes)
    requires |crc| == 16
    ensures Zeros(Feed(crc, data), 16) == DirectFeed(Zeros(crc, 16), data)
  {
    if data != [] {
      var init := data[..|data| - 1];
      FeedCommutes(crc, init);
      BytesCommute(Feed(crc, init), data[|data| - 1], 8);
    }
  }

  lemma {:induction false} BytesCommute(crc: Bits, val: uint8, n: nat)
    requires |crc| == 16 && n <= 8
    ensures Zeros(StepBits(crc, val, n), 16) == DirectBits(Zeros(crc, 16), val, n)
  {
    if n > 0 {
      BytesCommute(crc, val, n - 1);
      BitCommutes(StepBits(crc, val, n - 1), Bit(val, n - 1));
    }
  }

  // The linear algebra behind the equivalence.

  /** The register after `n` further zero bits. */
  function Zeros(r: Bits, n: nat): (z: Bits)
    requires |r| == 16
    ensures |z| == 16
  {
    if n == 0 then r else BitStep(Zeros(r, n - 1), false)
  }

  /** The register holding a single 1, at position `k` from the top. */
  function Single(k: nat): Bits
  {
    seq(16, i => i == k)
  }

  /**
   * Sixteen zero bits after one shift-in step equal one direct step after
   * sixteen zero bits. Zero steps are linear, so this reduces to the register
   * and the incoming bit separately; sixteen zero steps turn a 1 in bit 0
   * into the polynomial.
   */
  lemma BitCommutes(r: Bits, b: bool)
    requires |r| == 16
    ensures Zeros(BitStep(r, b), 16) == DirectBit(Zeros(r, 16), b)
  {
    var low := if b then Single(15) else ZERO;
    BitStepSplit(r, b);
    ZerosLinear(BitStep(r, false), low, 16);
    ZerosCommute(r, 16);
    DirectBitSplit(Zeros(r, 16), b);
    if b {
      ZerosOfSingle(15);
      SingleTop();
    } else {
      ZerosOfZero(16);
      ZeroValue();
    }
  }

  lemma {:induction false} ZerosLinear(a: Bits, b: Bits, n: nat)
    requires |a| == 16 && |b| == 16
    ensures Zeros(Xor(a, b), n) == Xor(Zeros(a, n), Zeros(b, n))
  {
    if n > 0 {
      ZerosLinear(a, b, n - 1);
      StepLinear(Zeros(a, n - 1), Zeros(b, n - 1));
    }
  }

  lemma {:induction false} ZerosCommute(r: Bits, n: nat)
    requires |r| == 16
    ensures Zeros(BitStep(r, false), n) == BitStep(Zeros(r, n), false)
  {
    if n > 0 {
      ZerosCommute(r, n - 1);
    }
  }

  lemma {:induction false} ZerosOfZero(n: nat)
    ensures Zeros(ZERO, n) == ZERO
  {
    if n > 0 {
      ZerosOfZero(n - 1);
      StepOfZero();
    }
  }

  lemma StepOfZero()
    ensures BitStep(ZERO, false) == ZERO
  {
    ZeroValue();
    assert ZERO[1..] + [false] == ZERO;
  }

  lemma {:induction false} ZerosOfSingle(n: nat)
    requires n <= 15
    ensures Zeros(Single(15), n) == Single(15 - n)
  {
    if n > 0 {
      ZerosOfSingle(n - 1);
      assert BitStep(Single(16 - n), false) == Single(15 - n);
    }
  }

  lemma SingleTop()
    ensures BitStep(Single(0), false) == POLY
  {
    ZeroValue();
    assert Single(0)[1..] + [false] == ZERO;
    assert Xor(ZERO, POLY) == POLY;
  }

  /** Feeding the byte 0 is eight zero bits, so the flush is sixteen. */
  lemma FlushIsZeros(r: Bits)
    requires |r| == 16
    ensures Flush(r) == Zeros(r, 16)
  {
    ZeroByte(r, 8);
    ZeroByte(ByteStep(r, 0), 8);
    ZerosAdd(r, 8, 8);
  }

  lemma {:induction false} ZeroByte(r: Bits, n: nat)
    requires |r| == 16 && n <= 8
    ensures StepBits(r, 0, n) == Zeros(r, n)
  {
    if n > 0 {
      ZeroByte(r, n - 1);
      BitsOfZero(8);
    }
  }

  lemma {:induction false} ZerosAdd(r: Bits, m: nat, n: nat)
    requires |r| == 16
    ensures Zeros(Zeros(r, m), n) == Zeros(r, m + n)
  {
    if n > 0 {
      ZerosAdd(r, m, n - 1);
    }
  }

  // Single-step facts about the register.

  lemma StepLinear(a: Bits, b: Bits)
    requires |a| == 16 && |b| == 16
    ensures BitStep(Xor(a, b), false) == Xor(BitStep(a, false), BitStep(b, false))
  {
  }

  lemma BitStepSplit(r: Bits, b: bool)
    requires |r| == 16
    ensures BitStep(r, b) == Xor(BitStep(r, false), if b then Single(15) else ZERO)
  {
    ZeroValue();
  }

  lemma DirectBitSplit(r: Bits, b: bool)
    requires |r| == 16
    ensures DirectBit(r, b) == Xor(BitStep(r, false), if b then POLY else ZERO)
  {
    ZeroValue();
  }
}
