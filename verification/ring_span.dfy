/**
 * Cursor arithmetic of the DMA transmit ring buffer: how many bytes are unread
 * between the read cursor (tail) and the write cursor (head), which bytes they
 * are, how much room is left, and which contiguous span the next DMA transfer
 * covers. Everything here is a pure function of the cursors and the buffer
 * contents; the class in DmaFifoPrint is specified in these terms.
 */
module RingSpan {

  type byte = bv8

  /** TX_RING_BUFFER_SIZE: number of byte slots in the buffer. */
  const Size: nat := 1024

  /** Largest value of a uint16_t (the type of head, tail and every length). */
  const Uint16Max: nat := 0xFFFF

  function Min(a: nat, b: nat): nat { if a <= b then a else b }

  /** Reduces a slot position below 2 * Size to a buffer index: i % Size without the division. */
  function Wrap(i: nat): (j: nat)
    requires i < 2 * Size
    ensures j < Size
  {
    if i < Size then i else i - Size
  }

  lemma WrapIsMod(i: nat)
    requires i < 2 * Size
    ensures Wrap(i) == i % Size
  {
  }

  /** Number of unread bytes: the distance from tail forward to head. */
  function Count(head: nat, tail: nat): (n: nat)
    requires head < Size && tail < Size
    ensures n < Size
    ensures n == 0 <==> head == tail
  {
    if head >= tail then head - tail else Size - tail + head
  }

  /** Advancing tail by the unread count reaches head. */
  lemma CountReachesHead(head: nat, tail: nat)
    requires head < Size && tail < Size
    ensures Wrap(tail + Count(head, tail)) == head
  {
  }

  /**
   * Free slots a push may still fill. One slot stays unused so that
   * head == tail always means "empty" and never "full".
   */
  function Room(head: nat, tail: nat): (r: nat)
    requires head < Size && tail < Size
    ensures r + Count(head, tail) == Size - 1
    ensures r == 0 <==> Wrap(head + 1) == tail
  {
    Size - 1 - Count(head, tail)
  }

  /** The unread bytes, oldest first: slots tail, tail+1, ... (mod Size), up to head. */
  function Unread(buf: seq<byte>, head: nat, tail: nat): (s: seq<byte>)
    requires |buf| == Size && head < Size && tail < Size
    ensures |s| == Count(head, tail)
  {
    if head >= tail then buf[tail..head] else buf[tail..] + buf[..head]
  }

  /** The k-th oldest unread byte sits in slot tail + k (mod Size). */
  lemma UnreadAt(buf: seq<byte>, head: nat, tail: nat, k: nat)
    requires |buf| == Size && head < Size && tail < Size
    requires k < Count(head, tail)
    ensures Unread(buf, head, tail)[k] == buf[Wrap(tail + k)]
  {
  }

  /**
   * Length of the next DMA transfer: the unread bytes from tail up to head,
   * or up to the physical end of the buffer when the unread region wraps.
   */
  function SpanLength(head: nat, tail: nat): (r: nat)
    requires head < Size && tail < Size && head != tail
    ensures 0 < r <= Count(head, tail)
    ensures tail + r <= Size
    ensures r == Count(head, tail) <==> (head > tail || head == 0)
  {
    if head > tail then head - tail else Size - tail
  }

  /** Writing one byte at head and advancing head appends that byte to the unread bytes. */
  lemma UnreadAppend(buf: seq<byte>, head: nat, tail: nat, d: byte)
    requires |buf| == Size && head < Size && tail < Size
    requires Wrap(head + 1) != tail
    ensures Count(Wrap(head + 1), tail) == Count(head, tail) + 1
    ensures Unread(buf[head := d], Wrap(head + 1), tail) == Unread(buf, head, tail) + [d]
  {
    var before := Unread(buf, head, tail);
    var after := Unread(buf[head := d], Wrap(head + 1), tail);
    assert |after| == |before| + 1;
    forall k | 0 <= k < |after|
      ensures after[k] == (before + [d])[k]
    {
      UnreadAt(buf[head := d], Wrap(head + 1), tail, k);
      if k < |before| {
        UnreadAt(buf, head, tail, k);
      }
    }
  }

  /** The bytes a transfer reads, buf[tail .. tail + n), are the oldest n unread bytes. */
  lemma SpanIsOldest(buf: seq<byte>, head: nat, tail: nat, n: nat)
    requires |buf| == Size && head < Size && tail < Size
    requires n <= Count(head, tail) && tail + n <= Size
    ensures buf[tail..tail + n] == Unread(buf, head, tail)[..n]
  {
    forall k | 0 <= k < n
      ensures buf[tail..tail + n][k] == Unread(buf, head, tail)[..n][k]
    {
      UnreadAt(buf, head, tail, k);
    }
  }

  /** Advancing tail by n leaves n fewer unread bytes. */
  lemma AdvanceCount(head: nat, tail: nat, n: nat)
    requires head < Size && tail < Size
    requires n <= Count(head, tail)
    ensures Count(head, Wrap(tail + n)) == Count(head, tail) - n
  {
  }

  /** Advancing tail by n consumes exactly the oldest n unread bytes. */
  lemma AdvanceConsumes(buf: seq<byte>, head: nat, tail: nat, n: nat)
    requires |buf| == Size && head < Size && tail < Size
    requires n <= Count(head, tail)
    ensures Count(head, Wrap(tail + n)) == Count(head, tail) - n
    ensures Unread(buf, head, Wrap(tail + n)) == Unread(buf, head, tail)[n..]
  {
    var t := Wrap(tail + n);
    var u := Unread(buf, head, tail);
    var v := Unread(buf, head, t);
    AdvanceCount(head, tail, n);
    forall k | 0 <= k < |v|
      ensures v[k] == u[n..][k]
    {
      UnreadAt(buf, head, t, k);
      UnreadAt(buf, head, tail, n + k);
      assert Wrap(t + k) == Wrap(tail + (n + k));
    }
  }

  /** The successive transfers that drain the buffer when every completion reports the requested length. */
  function DrainSpans(head: nat, tail: nat): (spans: seq<(nat, nat)>)
    requires head < Size && tail < Size
    decreases Count(head, tail)
  {
    if head == tail then []
    else
      var n := SpanLength(head, tail);
      AdvanceCount(head, tail, n);
      [(tail, n)] + DrainSpans(head, Wrap(tail + n))
  }

  /** The bytes the given transfers read, in order. */
  function SpanBytes(buf: seq<byte>, spans: seq<(nat, nat)>): seq<byte>
    requires |buf| == Size
    requires forall i :: 0 <= i < |spans| ==> spans[i].0 + spans[i].1 <= Size
  {
    if spans == [] then []
    else buf[spans[0].0..spans[0].0 + spans[0].1] + SpanBytes(buf, spans[1..])
  }

  /**
   * Draining needs at most two transfers (two exactly when the unread bytes
   * wrap past the end of the buffer), no transfer crosses that end, and
   * together they read exactly the unread bytes, in order.
   */
  lemma {:induction false} DrainDeliversUnread(buf: seq<byte>, head: nat, tail: nat)
    requires |buf| == Size && head < Size && tail < Size
    ensures var spans := DrainSpans(head, tail);
      (forall i :: 0 <= i < |spans| ==> 0 < spans[i].1 && spans[i].0 + spans[i].1 <= Size) &&
      |spans| <= 2 &&
      (|spans| == 2 <==> 0 < head < tail) &&
      SpanBytes(buf, spans) == Unread(buf, head, tail)
    decreases Count(head, tail)
  {
    if head != tail {
      var n := SpanLength(head, tail);
      var t := Wrap(tail + n);
      AdvanceConsumes(buf, head, tail, n);
      SpanIsOldest(buf, head, tail, n);
      DrainDeliversUnread(buf, head, t);
      var spans := DrainSpans(head, tail);
      assert spans[1..] == DrainSpans(head, t);
      var u := Unread(buf, head, tail);
      assert u == u[..n] + u[n..];
      if 0 < head < tail {
        assert t == 0;
      } else {
        assert t == head;
      }
    }
  }
}
