/**
 * The bit-banged I2C master of the software OLED driver, at the level of the
 * writes it makes to the SCL and SDA pins (delays between the writes are not
 * modelled), together with a model of a receiver on the bus: it samples SDA
 * on every rising edge of SCL, recognises START (SDA falls while SCL is high)
 * and STOP (SDA rises while SCL is high), and groups the sampled bits of a
 * frame into bytes of eight data bits plus one acknowledge slot.
 */
module SoftI2c {
  import Seqs

  type byte = bv8

  /** One HAL_GPIO_WritePin call on the clock or the data line. */
  datatype PinWrite = SclWrite(high: bool) | SdaWrite(high: bool)

  /** I2C_Start: release both lines, pull SDA low while SCL is high, then hold SCL low. */
  function StartWrites(): seq<PinWrite>
  {
    [SdaWrite(true), SclWrite(true), SdaWrite(false), SclWrite(false)]
  }

  /** I2C_Stop: SDA low, SCL high, then SDA released while SCL is high. */
  function StopWrites(): seq<PinWrite>
  {
    [SdaWrite(false), SclWrite(true), SdaWrite(true)]
  }

  /** I2C_WaitAck: release SDA and clock once; the acknowledge bit is not read. */
  function WaitAckWrites(): seq<PinWrite>
  {
    [SdaWrite(true), SclWrite(true), SclWrite(false)]
  }

  /** One data bit: set SDA while SCL is low, then one clock pulse. */
  function BitWrites(v: bool): seq<PinWrite>
  {
    [SdaWrite(v), SclWrite(true), SclWrite(false)]
  }

  function BitsWrites(bits: seq<bool>): seq<PinWrite>
  {
    if bits == [] then [] else BitWrites(bits[0]) + BitsWrites(bits[1..])
  }

  /** Bit k of the transmission order of b: bit 7 first, bit 0 last. */
  function SentBit(b: byte, k: nat): bool
    requires k < 8
  {
    (b >> (7 - k)) & 1 == 1
  }

  /** The eight data bits of b, most significant first. */
  function ByteBits(b: byte): (bits: seq<bool>)
    ensures |bits| == 8
  {
    seq(8, k requires 0 <= k < 8 => SentBit(b, k))
  }

  /** Everything I2C_SendByte writes for b: its eight bits, then the acknowledge clock. */
  function ByteWrites(b: byte): seq<PinWrite>
  {
    BitsWrites(ByteBits(b)) + WaitAckWrites()
  }

  lemma {:induction false} BitsWritesAppend(a: seq<bool>, b: seq<bool>)
    ensures BitsWrites(a + b) == BitsWrites(a) + BitsWrites(b)
    decreases |a|
  {
    if a == [] {
      Seqs.EmptyAppend(a, b);
      Seqs.EmptyAppend(BitsWrites(a), BitsWrites(b));
    } else {
      Seqs.TailOfAppend(a, b);
      BitsWritesAppend(a[1..], b);
      Seqs.Associate(BitWrites(a[0]), BitsWrites(a[1..]), BitsWrites(b));
    }
  }

  /** Writing the next transmitted bit extends the writes of the bits sent so far. */
  lemma SendBitStep(b: byte, i: nat, v: bool)
    requires i < 8 && v == SentBit(b, i)
    ensures BitsWrites(ByteBits(b)[..i]) + BitWrites(v) == BitsWrites(ByteBits(b)[..i + 1])
  {
    var bits := ByteBits(b);
    assert bits[..i + 1] == bits[..i] + [v];
    BitsWritesAppend(bits[..i], [v]);
    assert [v][1..] == [];
  }

  /** b shifted left one place i times, as I2C_SendByte's working copy after i bits. */
  function ShiftedLeft(b: byte, i: nat): byte
  {
    if i == 0 then b else ShiftedLeft(b, i - 1) << 1
  }

  lemma {:induction false} ShiftedLeftIsShift(b: byte, i: nat)
    requires i < 8
    ensures ShiftedLeft(b, i) == b << i
  {
    if i > 0 {
      ShiftedLeftIsShift(b, i - 1);
      ShiftTwice(b, i - 1);
    }
  }

  lemma ShiftTwice(b: byte, i: nat)
    requires i < 7
    ensures (b << i) << 1 == b << (i + 1)
  {
    // One empty branch per shift amount: with i a known constant in each
    // branch, the bit-vector solver proves the shift identity directly.
    if i == 0 {
    } else if i == 1 {
    } else if i == 2 {
    } else if i == 3 {
    } else if i == 4 {
    } else if i == 5 {
    } else {
    }
  }

  /** After i shifts the top bit (0x80) of the working copy is the i-th transmitted bit. */
  lemma TopBit(b: byte, i: nat)
    requires i < 8
    ensures (ShiftedLeft(b, i) & 0x80 != 0) == SentBit(b, i)
  {
    ShiftedLeftIsShift(b, i);
    // As in ShiftTwice, one case per shift amount for the bit-vector solver.
    if i == 0 {
    } else if i == 1 {
    } else if i == 2 {
    } else if i == 3 {
    } else if i == 4 {
    } else if i == 5 {
    } else if i == 6 {
    } else {
    }
  }

  /**
   * I2C_SendByte: the bits of b go out most significant first, each as SDA
   * set while SCL is low followed by one clock pulse, and then the
   * acknowledge clock.
   */
  method SendByte(b: byte) returns (writes: seq<PinWrite>)
    ensures writes == ByteWrites(b)
  {
    var cur := b;
    writes := [];
    var i := 0;
    while i < 8
      invariant i <= 8
      invariant cur == ShiftedLeft(b, i)
      invariant writes == BitsWrites(ByteBits(b)[..i])
    {
      TopBit(b, i);
      SendBitStep(b, i, cur & 0x80 != 0);
      writes := writes + BitWrites(cur & 0x80 != 0);
      cur := cur << 1;
      i := i + 1;
    }
    assert ByteBits(b)[..8] == ByteBits(b);
    writes := writes + WaitAckWrites();
  }

  /** Sending several bytes one after another. */
  function BytesWrites(bs: seq<byte>): seq<PinWrite>
  {
    if bs == [] then [] else ByteWrites(bs[0]) + BytesWrites(bs[1..])
  }

  lemma BytesWritesSnoc(bs: seq<byte>, b: byte)
    ensures BytesWrites(bs + [b]) == BytesWrites(bs) + ByteWrites(b)
  {
    BytesWritesAppend(bs, [b]);
    assert [b][1..] == [];
    Seqs.EmptyAppend(BytesWrites([b][1..]), ByteWrites(b));
  }

  lemma {:induction false} BytesWritesAppend(a: seq<byte>, b: seq<byte>)
    ensures BytesWrites(a + b) == BytesWrites(a) + BytesWrites(b)
    decreases |a|
  {
    if a == [] {
      Seqs.EmptyAppend(a, b);
      Seqs.EmptyAppend(BytesWrites(a), BytesWrites(b));
    } else {
      Seqs.TailOfAppend(a, b);
      BytesWritesAppend(a[1..], b);
      Seqs.Associate(ByteWrites(a[0]), BytesWrites(a[1..]), BytesWrites(b));
    }
  }

  /** One complete transaction: START, the bytes, STOP. */
  function FrameWrites(bs: seq<byte>): seq<PinWrite>
  {
    StartWrites() + BytesWrites(bs) + StopWrites()
  }

  /** A transaction of three bytes, each sent with its acknowledge clock. */
  lemma FrameOfThree(b0: byte, b1: byte, b2: byte, w0: seq<PinWrite>, w1: seq<PinWrite>, w2: seq<PinWrite>)
    requires w0 == ByteWrites(b0) && w1 == ByteWrites(b1) && w2 == ByteWrites(b2)
    ensures StartWrites() + (w0 + w1 + w2) + StopWrites() == FrameWrites([b0, b1, b2])
  {
    var bs := [b0, b1, b2];
    assert bs[1..] == [b1, b2] && bs[1..][1..] == [b2] && [b2][1..] == [];
    assert BytesWrites([b2]) == w2 + [] == w2;
    assert BytesWrites([b1, b2]) == w1 + w2;
    Seqs.Associate(w0, w1, w2);
  }

  /** Several transactions back to back. */
  function Wire(frames: seq<seq<byte>>): seq<PinWrite>
  {
    if frames == [] then [] else FrameWrites(frames[0]) + Wire(frames[1..])
  }

  lemma WireSingle(frame: seq<byte>)
    ensures Wire([frame]) == FrameWrites(frame)
  {
    assert [frame][1..] == [];
    assert FrameWrites(frame) + [] == FrameWrites(frame);
  }

  lemma WireThree(f0: seq<byte>, f1: seq<byte>, f2: seq<byte>)
    ensures Wire([f0, f1, f2]) == FrameWrites(f0) + FrameWrites(f1) + FrameWrites(f2)
  {
    var fs := [f0, f1, f2];
    assert fs[1..] == [f1, f2] && fs[1..][1..] == [f2];
    WireSingle(f2);
  }

  lemma {:induction false} WireAppend(a: seq<seq<byte>>, b: seq<seq<byte>>)
    ensures Wire(a + b) == Wire(a) + Wire(b)
    decreases |a|
  {
    if a == [] {
      Seqs.EmptyAppend(a, b);
      Seqs.EmptyAppend(Wire(a), Wire(b));
    } else {
      Seqs.TailOfAppend(a, b);
      WireAppend(a[1..], b);
      Seqs.Associate(FrameWrites(a[0]), Wire(a[1..]), Wire(b));
    }
  }

  /* ----- the receiving side ----- */

  /** Eight sampled bits, most significant first, shifted into a byte. */
  function ShiftIn(acc: byte, bits: seq<bool>): byte
    decreases |bits|
  {
    if bits == [] then acc
    else ShiftIn((acc << 1) | (if bits[0] then 1 else 0), bits[1..])
  }

  /** The receiver's shift register after the first k transmitted bits of b. */
  function Received(b: byte, k: nat): byte
    requires k <= 8
  {
    if k == 0 then 0 else (Received(b, k - 1) << 1) | (if SentBit(b, k - 1) then 1 else 0)
  }

  lemma {:induction false} ShiftInPrefix(b: byte, k: nat)
    requires k <= 8
    ensures ShiftIn(0, ByteBits(b)) == ShiftIn(Received(b, k), ByteBits(b)[k..])
    decreases k
  {
    if k == 0 {
      assert ByteBits(b)[0..] == ByteBits(b);
    } else {
      ShiftInPrefix(b, k - 1);
      var bits := ByteBits(b)[k - 1..];
      assert bits[0] == SentBit(b, k - 1);
      assert bits[1..] == ByteBits(b)[k..];
    }
  }

  /** Shifting in the transmitted bits of b gives b back. */
  lemma ShiftInByteBits(b: byte)
    ensures ShiftIn(0, ByteBits(b)) == b
  {
    ShiftInPrefix(b, 8);
    ReceivedAll(b);
  }

  lemma ReceivedAll(b: byte)
    ensures Received(b, 8) == b
  {
    assert Received(b, 1) == b >> 7;
    assert Received(b, 2) == b >> 6;
    assert Received(b, 3) == b >> 5;
    assert Received(b, 4) == b >> 4;
    assert Received(b, 5) == b >> 3;
    assert Received(b, 6) == b >> 2;
    assert Received(b, 7) == b >> 1;
    assert Received(b, 8) == b;
  }

  /** The bytes of a frame: every nine sampled bits are eight data bits and an acknowledge slot; a shorter tail is dropped. */
  function Bytes(bits: seq<bool>): seq<byte>
    decreases |bits|
  {
    if |bits| < 9 then [] else [ShiftIn(0, bits[..8])] + Bytes(bits[9..])
  }

  /** The bits a receiver samples while the bytes go out: each byte's bits, then the released SDA of the acknowledge clock. */
  function SampledBits(bs: seq<byte>): (bits: seq<bool>)
    ensures |bits| == 9 * |bs|
  {
    if bs == [] then [] else ByteBits(bs[0]) + [true] + SampledBits(bs[1..])
  }

  /** A STOP samples one more bit (SDA low) before it ends the frame; the bytes survive it. */
  lemma {:induction false} BytesOfSampled(bs: seq<byte>, tail: seq<bool>)
    requires |tail| < 9
    ensures Bytes(SampledBits(bs) + tail) == bs
    decreases |bs|
  {
    if bs == [] {
      assert SampledBits(bs) + tail == tail;
    } else {
      var all := SampledBits(bs) + tail;
      assert all[..8] == ByteBits(bs[0]);
      assert all[9..] == SampledBits(bs[1..]) + tail;
      ShiftInByteBits(bs[0]);
      BytesOfSampled(bs[1..], tail);
    }
  }

  /** Line levels as the receiver last saw them, whether a frame is open, its bits so far, and the frames completed. */
  datatype Receiver = Receiver(scl: bool, sda: bool, inFrame: bool, bits: seq<bool>, frames: seq<seq<byte>>)

  /** Both lines released, no frame open. */
  function Idle(frames: seq<seq<byte>>): Receiver
  {
    Receiver(true, true, false, [], frames)
  }

  function Step(r: Receiver, w: PinWrite): Receiver
  {
    match w
    case SclWrite(high) =>
      if high && !r.scl && r.inFrame then r.(scl := true, bits := r.bits + [r.sda])
      else r.(scl := high)
    case SdaWrite(high) =>
      if r.scl && r.sda && !high then
        r.(sda := false, inFrame := true, bits := [])
      else if r.scl && !r.sda && high && r.inFrame then
        r.(sda := true, inFrame := false, bits := [], frames := r.frames + [Bytes(r.bits)])
      else r.(sda := high)
  }

  function Run(r: Receiver, ws: seq<PinWrite>): Receiver
    decreases |ws|
  {
    if ws == [] then r else Run(Step(r, ws[0]), ws[1..])
  }

  lemma {:induction false} RunAppend(r: Receiver, a: seq<PinWrite>, b: seq<PinWrite>)
    ensures Run(r, a + b) == Run(Run(r, a), b)
    decreases |a|
  {
    if a == [] {
      assert a + b == b;
    } else {
      assert (a + b)[1..] == a[1..] + b;
      RunAppend(Step(r, a[0]), a[1..], b);
    }
  }

  /** Inside a frame with SCL low: a bit adds one sample and leaves SCL low. */
  lemma RunBit(r: Receiver, v: bool)
    requires r.inFrame && !r.scl
    ensures Run(r, BitWrites(v)) == r.(sda := v, bits := r.bits + [v])
  {
    var ws := BitWrites(v);
    assert ws[1..][1..][1..] == [];
  }

  lemma {:induction false} RunBits(r: Receiver, bits: seq<bool>)
    requires r.inFrame && !r.scl
    ensures bits != [] ==> Run(r, BitsWrites(bits)) == r.(sda := bits[|bits| - 1], bits := r.bits + bits)
    ensures bits == [] ==> Run(r, BitsWrites(bits)) == r
    decreases |bits|
  {
    if bits != [] {
      RunAppend(r, BitWrites(bits[0]), BitsWrites(bits[1..]));
      RunBit(r, bits[0]);
      RunBits(r.(sda := bits[0], bits := r.bits + [bits[0]]), bits[1..]);
      assert r.bits + [bits[0]] + bits[1..] == r.bits + bits;
    }
  }

  /** Inside a frame with SCL low: a byte adds its eight bits and the acknowledge sample, and leaves SDA released. */
  lemma RunByte(r: Receiver, b: byte)
    requires r.inFrame && !r.scl
    ensures Run(r, ByteWrites(b)) == r.(sda := true, bits := r.bits + ByteBits(b) + [true])
  {
    RunAppend(r, BitsWrites(ByteBits(b)), WaitAckWrites());
    RunBits(r, ByteBits(b));
    assert WaitAckWrites()[1..][1..][1..] == [];
  }

  lemma {:induction false} RunBytes(r: Receiver, bs: seq<byte>)
    requires r.inFrame && !r.scl
    ensures bs == [] ==> Run(r, BytesWrites(bs)) == r
    ensures bs != [] ==> Run(r, BytesWrites(bs)) == r.(sda := true, bits := r.bits + SampledBits(bs))
    decreases |bs|
  {
    if bs != [] {
      var b := bs[0];
      var rest := bs[1..];
      var r1 := r.(sda := true, bits := r.bits + ByteBits(b) + [true]);
      RunAppend(r, ByteWrites(b), BytesWrites(rest));
      RunByte(r, b);
      RunBytes(r1, rest);
      assert SampledBits(bs) == ByteBits(b) + [true] + SampledBits(rest);
      if rest == [] {
        assert r1.bits == r.bits + SampledBits(bs);
      } else {
        assert r1.bits + SampledBits(rest) == r.bits + SampledBits(bs);
      }
    }
  }

  /** From an idle bus, I2C_Start opens an empty frame and leaves SCL held low. */
  lemma RunStart(frames: seq<seq<byte>>)
    ensures Run(Idle(frames), StartWrites()) == Receiver(false, false, true, [], frames)
  {
    assert StartWrites()[1..][1..][1..][1..] == [];
  }

  /** With SCL low inside a frame, I2C_Stop samples one more bit and closes the frame. */
  lemma RunStop(r: Receiver)
    requires r.inFrame && !r.scl
    ensures Run(r, StopWrites()) == Idle(r.frames + [Bytes(r.bits + [false])])
  {
    assert StopWrites()[1..][1..][1..] == [];
  }

  /** A receiver on an idle bus collects exactly the bytes of one transaction as one frame, and the bus is idle again. */
  lemma RunFrame(frames: seq<seq<byte>>, bs: seq<byte>)
    ensures Run(Idle(frames), FrameWrites(bs)) == Idle(frames + [bs])
  {
    var r0 := Receiver(false, false, true, [], frames);
    RunAppend(Idle(frames), StartWrites() + BytesWrites(bs), StopWrites());
    RunAppend(Idle(frames), StartWrites(), BytesWrites(bs));
    RunStart(frames);
    RunBytes(r0, bs);
    var r1 := Run(r0, BytesWrites(bs));
    assert r1.bits == SampledBits(bs);
    RunStop(r1);
    BytesOfSampled(bs, [false]);
    assert Run(Idle(frames), FrameWrites(bs)) == Run(r1, StopWrites());
  }

  /**
   * The round trip of the software I2C layer: whatever sequence of
   * transactions the master sends, a receiver on an idle bus decodes exactly
   * those transactions, byte for byte, in order.
   */
  lemma {:induction false} WireDelivers(received: seq<seq<byte>>, frames: seq<seq<byte>>)
    ensures Run(Idle(received), Wire(frames)) == Idle(received + frames)
    decreases |frames|
  {
    if frames == [] {
      assert received + frames == received;
    } else {
      RunAppend(Idle(received), FrameWrites(frames[0]), Wire(frames[1..]));
      RunFrame(received, frames[0]);
      WireDelivers(received + [frames[0]], frames[1..]);
      assert received + [frames[0]] + frames[1..] == received + frames;
    }
  }
}
