/**
 * The DMA ring-buffer transmit engine behind printf: a handle with a byte
 * buffer of TX_RING_BUFFER_SIZE slots, a write cursor (head), a read cursor
 * (tail) and a busy flag. Push copies bytes in and starts a transfer; the
 * UART's transfer-complete callback advances tail and starts the next one.
 * Push, TryTransmit and the callback are modelled as atomic steps.
 */
module DmaFifoPrint {
  import opened RingSpan

  /** One call of HAL_UART_Transmit_DMA: buffer offset, length, and whether the HAL accepted it. */
  datatype Request = Request(offset: nat, length: nat, accepted: bool)

  /**
   * The UART with its DMA channel, seen only through HAL_UART_Transmit_DMA.
   * Whether a start is accepted (HAL_OK) depends on the peripheral's state,
   * which the environment sets through `accepting`. Every request is logged;
   * `txBytes` is what the DMA moves for the last accepted one.
   */
  class Uart {
    var accepting: bool
    var requests: seq<Request>
    var txBytes: seq<byte>

    constructor (accepting: bool)
      ensures this.accepting == accepting && requests == [] && txBytes == []
    {
      this.accepting := accepting;
      requests := [];
      txBytes := [];
    }

    method TransmitDma(buf: array<byte>, offset: nat, length: nat) returns (ok: bool)
      requires offset + length <= buf.Length
      modifies this
      ensures ok == accepting && accepting == old(accepting)
      ensures requests == old(requests) + [Request(offset, length, ok)]
      ensures txBytes == if ok then buf[offset..offset + length] else old(txBytes)
    {
      ok := accepting;
      requests := requests + [Request(offset, length, ok)];
      if ok {
        txBytes := buf[offset..offset + length];
      }
    }
  }

  /**
   * The bookkeeping the design relies on, over plain values: every accepted
   * byte has been sent or is still unread, and a transfer in flight reads the
   * oldest unread bytes without crossing the end of the buffer.
   */
  ghost predicate Bookkept(accepted: seq<byte>, sent: seq<byte>, unread: seq<byte>, busy: bool, tail: nat, inFlight: seq<byte>)
  {
    accepted == sent + unread &&
    (busy ==>
      0 < |inFlight| <= |unread| &&
      tail + |inFlight| <= Size &&
      inFlight == unread[..|inFlight|])
  }

  /** Appending the same bytes to the accepted and the unread bytes keeps the bookkeeping. */
  lemma BookkeptAppend(accepted: seq<byte>, sent: seq<byte>, unread: seq<byte>, busy: bool, tail: nat, inFlight: seq<byte>, more: seq<byte>)
    requires Bookkept(accepted, sent, unread, busy, tail, inFlight)
    ensures Bookkept(accepted + more, sent, unread + more, busy, tail, inFlight)
  {
    if busy {
      assert (unread + more)[..|inFlight|] == unread[..|inFlight|];
    }
  }

  /** Extending a prefix of data by its next element. */
  lemma SnocSlice(prefix: seq<byte>, data: seq<byte>, i: nat)
    requires i < |data|
    ensures prefix + data[..i] + [data[i]] == prefix + data[..i + 1]
  {
    assert data[..i + 1] == data[..i] + [data[i]];
  }

  /**
   * A completion that reports the length of the transfer in flight consumes
   * exactly that transfer's bytes and keeps the bookkeeping once busy is cleared.
   */
  lemma CompletionKeepsBookkeeping(buf: seq<byte>, head: nat, tail: nat, accepted: seq<byte>, sent: seq<byte>, inFlight: seq<byte>)
    requires |buf| == Size && head < Size && tail < Size
    requires Bookkept(accepted, sent, Unread(buf, head, tail), true, tail, inFlight)
    ensures (tail + |inFlight|) % Size < Size
    ensures Unread(buf, head, (tail + |inFlight|) % Size) == Unread(buf, head, tail)[|inFlight|..]
    ensures Bookkept(accepted, sent + inFlight, Unread(buf, head, (tail + |inFlight|) % Size), false, (tail + |inFlight|) % Size, inFlight)
  {
    var u := Unread(buf, head, tail);
    WrapIsMod(tail + |inFlight|);
    AdvanceConsumes(buf, head, tail, |inFlight|);
    assert u == inFlight + u[|inFlight|..];
  }

  /** DMA_Print_Handle_t. */
  class DmaPrint {
    const uart: Uart
    const buffer: array<byte>
    var head: nat
    var tail: nat
    var dmaIsBusy: bool
    /** Every byte Push has stored, in order. */
    ghost var accepted: seq<byte>
    /** The bytes of every transfer whose completion has been reported, in order. */
    ghost var sent: seq<byte>

    /** Both cursors always index the buffer. */
    ghost predicate Valid()
      reads this`head, this`tail
    {
      buffer.Length == Size && head < Size && tail < Size
    }

    /** The bytes waiting to be sent, oldest first. */
    ghost function Contents(): seq<byte>
      reads this`head, this`tail, buffer
      requires Valid()
    {
      Unread(buffer[..], head, tail)
    }

    /**
     * The bookkeeping the design relies on: every accepted byte has been sent
     * or is still unread, and a transfer in flight reads the oldest unread
     * bytes without crossing the end of the buffer.
     */
    ghost predicate Consistent()
      reads this, buffer, uart
      requires Valid()
    {
      Bookkept(accepted, sent, Contents(), dmaIsBusy, tail, uart.txBytes)
    }

    /**
     * What DMA_Try_Transmit does, given the busy flag and the UART log before
     * it ran: nothing when busy or empty; otherwise one request for the
     * contiguous span at tail, after which the handle is busy exactly when the
     * HAL accepted it.
     */
    ghost predicate AfterTryTransmit(wasBusy: bool, requests0: seq<Request>, txBytes0: seq<byte>, accepting0: bool)
      reads this, buffer, uart
      requires Valid()
    {
      uart.accepting == accepting0 &&
      if wasBusy || head == tail then
        dmaIsBusy == wasBusy && uart.requests == requests0 && uart.txBytes == txBytes0
      else
        var n := SpanLength(head, tail);
        uart.requests == requests0 + [Request(tail, n, accepting0)] &&
        dmaIsBusy == accepting0 &&
        uart.txBytes == if accepting0 then buffer[tail..tail + n] else txBytes0
    }

    /** DMA_Printf_Init: empty and idle. */
    constructor Init(uart: Uart)
      ensures Valid() && Consistent()
      ensures this.uart == uart && fresh(buffer)
      ensures head == 0 && tail == 0 && !dmaIsBusy
      ensures Contents() == [] && accepted == [] && sent == []
    {
      this.uart := uart;
      buffer := new byte[Size];
      head := 0;
      tail := 0;
      dmaIsBusy := false;
      accepted := [];
      sent := [];
    }

    /** DMA_Try_Transmit. */
    method TryTransmit()
      requires Valid()
      modifies this`dmaIsBusy, uart
      ensures Valid()
      ensures AfterTryTransmit(old(dmaIsBusy), old(uart.requests), old(uart.txBytes), old(uart.accepting))
      ensures old(Consistent()) ==> Consistent()
    {
      if dmaIsBusy {
        return;
      }
      if head == tail {
        return;
      }
      var length: nat;
      if head > tail {
        length := head - tail;
      } else {
        length := Size - tail;
      }
      assert length == SpanLength(head, tail);
      dmaIsBusy := true;
      var ok := uart.TransmitDma(buffer, tail, length);
      if !ok {
        dmaIsBusy := false;
      }
      SpanIsOldest(buffer[..], head, tail, length);
    }

    /**
     * The copy loop of DMA_Printf_Push: stores the longest prefix of `data`
     * that fits, leaving one slot free, and drops the rest.
     */
    method CopyIn(data: seq<byte>)
      requires Valid() && |data| <= Uint16Max
      modifies this`head, this`accepted, buffer
      ensures Valid() && tail == old(tail)
      ensures var k := Min(|data|, Room(old(head), old(tail)));
        head == Wrap(old(head) + k) &&
        Contents() == old(Contents()) + data[..k] &&
        accepted == old(accepted) + data[..k]
    {
      ghost var c0 := Contents();
      ghost var a0 := accepted;
      ghost var h0 := head;
      ghost var room0 := Room(head, tail);
      ghost var k := Min(|data|, room0);
      var i := 0;
      while i < |data|
        invariant Valid() && tail == old(tail) && i <= k
        invariant Room(head, tail) + i == room0
        invariant head == Wrap(h0 + i)
        invariant Contents() == c0 + data[..i]
        invariant accepted == a0 + data[..i]
      {
        var nextHead := (head + 1) % Size;
        if nextHead != tail {
          StoreByte(data[i], nextHead);
          SnocSlice(c0, data, i);
          SnocSlice(a0, data, i);
          i := i + 1;
        } else {
          WrapIsMod(head + 1);
          assert Room(head, tail) == 0;
          break;
        }
      }
    }

    /** One pass of the copy loop: data byte d goes into the slot at head, and head moves on to nextHead. */
    method StoreByte(d: byte, nextHead: nat)
      requires Valid() && nextHead == (head + 1) % Size && nextHead != tail
      modifies this`head, this`accepted, buffer
      ensures Valid() && tail == old(tail)
      ensures head == Wrap(old(head) + 1) && Room(head, tail) + 1 == Room(old(head), tail)
      ensures Contents() == old(Contents()) + [d]
      ensures accepted == old(accepted) + [d]
    {
      WrapIsMod(head + 1);
      UnreadAppend(buffer[..], head, tail, d);
      buffer[head] := d;
      head := nextHead;
      accepted := accepted + [d];
    }

    /**
     * DMA_Printf_Push: copies in what fits (see CopyIn), then tries to start
     * a transfer.
     */
    method Push(data: seq<byte>)
      requires Valid() && |data| <= Uint16Max
      modifies this, buffer, uart
      ensures Valid()
      ensures tail == old(tail) && sent == old(sent)
      ensures var k := Min(|data|, Room(old(head), old(tail)));
        head == Wrap(old(head) + k) &&
        Contents() == old(Contents()) + data[..k] &&
        accepted == old(accepted) + data[..k]
      ensures AfterTryTransmit(old(dmaIsBusy), old(uart.requests), old(uart.txBytes), old(uart.accepting))
      ensures old(Consistent()) ==> Consistent()
    {
      CopyIn(data);
      if old(Consistent()) {
        ghost var k := Min(|data|, Room(old(head), old(tail)));
        BookkeptAppend(old(accepted), sent, old(Contents()), dmaIsBusy, tail, uart.txBytes, data[..k]);
      }
      TryTransmit();
    }

    /**
     * DMA_Printf_TxCpltCallback, with `sentLen` the length the HAL reports for
     * the finished transfer (huart->TxXferSize). Ignored when no transfer is in
     * flight; otherwise advances tail by that length, clears busy and retries.
     */
    method TxCpltCallback(sentLen: nat)
      requires Valid() && sentLen <= Uint16Max
      modifies this, uart
      ensures Valid()
      ensures !old(dmaIsBusy) ==> unchanged(this, uart)
      ensures old(dmaIsBusy) ==>
        head == old(head) && tail == (old(tail) + sentLen) % Size &&
        accepted == old(accepted) && sent == old(sent) + old(uart.txBytes) &&
        AfterTryTransmit(false, old(uart.requests), old(uart.txBytes), old(uart.accepting))
      ensures old(Consistent()) && old(dmaIsBusy) && sentLen == |old(uart.txBytes)| ==>
        Consistent() && Contents() == old(Contents())[sentLen..]
      ensures old(Consistent()) && !old(dmaIsBusy) ==> Consistent()
    {
      if dmaIsBusy {
        if Consistent() && sentLen == |uart.txBytes| {
          CompletionKeepsBookkeeping(buffer[..], head, tail, accepted, sent, uart.txBytes);
        }
        tail := (tail + sentLen) % Size;
        dmaIsBusy := false;
        sent := sent + uart.txBytes;
        TryTransmit();
      }
    }
  }

  /**
   * The GCC `_write` hook: the int length is narrowed to the uint16_t length
   * Push takes, and the full length is returned whatever Push stored.
   */
  method Write(h: DmaPrint, data: seq<byte>) returns (n: int)
    requires h.Valid() && |data| <= 0x7FFF_FFFF
    modifies h, h.buffer, h.uart
    ensures n == |data|
    ensures h.Valid() && h.tail == old(h.tail)
    ensures var k := Min(|data| % (Uint16Max + 1), Room(old(h.head), old(h.tail)));
      h.Contents() == old(h.Contents()) + data[..k]
    ensures old(h.Consistent()) ==> h.Consistent()
  {
    h.Push(data[..|data| % (Uint16Max + 1)]);
    n := |data|;
  }

  /** Five bytes into an empty buffer go out as one transfer from offset 0; its completion leaves the engine empty and idle. */
  method ScenarioShortMessage(uart: Uart)
    requires uart.accepting && uart.requests == []
    modifies uart
  {
    var h := new DmaPrint.Init(uart);
    h.Push([0x41, 0x42, 0x43, 0x44, 0x45]);
    assert uart.requests == [Request(0, 5, true)];
    assert h.dmaIsBusy && uart.txBytes == [0x41, 0x42, 0x43, 0x44, 0x45];
    h.TxCpltCallback(5);
    assert h.Contents() == [] && !h.dmaIsBusy && |uart.requests| == 1;
    assert h.sent == h.accepted == [0x41, 0x42, 0x43, 0x44, 0x45];
  }
}
