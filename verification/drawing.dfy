/**
 * What the two OLED drivers ask of the display, independent of how the
 * request travels over I2C: place the cursor, or write bytes of GDDRAM data
 * at the cursor. ShowChar and Clear are sequences of these requests; each
 * driver encodes them for its own transport.
 */
module Drawing {
  import Seqs
  import opened Ssd1306
  import opened Font
  import opened TextLayout

  datatype DisplayOp = SetCursor(x: nat, page: nat) | WriteData(bytes: seq<byte>)

  /** The ShowChar bounds check: the glyph fits on the panel at (x, page). */
  predicate Fits(x: nat, page: nat, g: Glyph)
  {
    x + g.width <= Columns && page + g.pages <= PageCount
  }

  /** Pages p, p + 1, ... of the glyph: for each, the cursor at (x, page + p), then that row. */
  function RowOps(x: nat, page: nat, g: Glyph, p: nat): (ops: seq<DisplayOp>)
    requires GlyphShape(g) && p <= g.pages
    ensures |ops| == 2 * (g.pages - p)
    decreases g.pages - p
  {
    if p == g.pages then []
    else [SetCursor(x, page + p), WriteData(Row(g, p))] + RowOps(x, page, g, p + 1)
  }

  /** The requests of ShowChar once the glyph is chosen: nothing unless it fits. */
  function CharOps(x: nat, page: nat, g: Glyph): (ops: seq<DisplayOp>)
    requires GlyphShape(g)
    ensures |ops| == if Fits(x, page, g) then 2 * g.pages else 0
  {
    if Fits(x, page, g) then RowOps(x, page, g, 0) else []
  }

  /** The bytes of every data write, in order. */
  function Payload(ops: seq<DisplayOp>): seq<byte>
  {
    if ops == [] then []
    else (if ops[0].WriteData? then ops[0].bytes else []) + Payload(ops[1..])
  }

  /** Two positions further on is the same parity, one pair later. */
  lemma HalfStep(k: nat)
    requires k >= 2
    ensures (k - 2) % 2 == k % 2 && (k - 2) / 2 + 1 == k / 2
  {
  }

  lemma {:induction false} RowOpsShape(x: nat, page: nat, g: Glyph, p: nat)
    requires GlyphShape(g) && p <= g.pages
    ensures var ops := RowOps(x, page, g, p);
      |ops| == 2 * (g.pages - p) &&
      forall k :: 0 <= k < |ops| ==>
        ops[k] == if k % 2 == 0 then SetCursor(x, page + p + k / 2) else WriteData(Row(g, p + k / 2))
    decreases g.pages - p
  {
    if p < g.pages {
      RowOpsShape(x, page, g, p + 1);
      var ops := RowOps(x, page, g, p);
      var rest := RowOps(x, page, g, p + 1);
      assert ops == [SetCursor(x, page + p), WriteData(Row(g, p))] + rest;
      forall k | 0 <= k < |ops|
        ensures ops[k] == if k % 2 == 0 then SetCursor(x, page + p + k / 2) else WriteData(Row(g, p + k / 2))
      {
        if k >= 2 {
          var j := k - 2;
          HalfStep(k);
          assert ops[k] == rest[j];
          assert rest[j] == if j % 2 == 0 then SetCursor(x, page + (p + 1) + j / 2) else WriteData(Row(g, p + 1 + j / 2));
        }
      }
    }
  }

  /** The glyph bytes from row p on are row p followed by the bytes from row p + 1 on. */
  lemma RowSplit(g: Glyph, p: nat)
    requires GlyphShape(g) && p < g.pages
    ensures p * g.width <= (p + 1) * g.width <= |g.bytes|
    ensures g.bytes[p * g.width..] == Row(g, p) + g.bytes[(p + 1) * g.width..]
  {
    assert (p + 1) * g.width == p * g.width + g.width;
    assert (p + 1) * g.width <= g.pages * g.width;
  }

  /** A cursor move carries no data. */
  lemma PayloadPair(x: nat, page: nat, bytes: seq<byte>, rest: seq<DisplayOp>)
    ensures Payload([SetCursor(x, page), WriteData(bytes)] + rest) == bytes + Payload(rest)
  {
    var ops := [SetCursor(x, page), WriteData(bytes)] + rest;
    assert ops[1..] == [WriteData(bytes)] + rest;
    assert ops[1..][1..] == rest;
  }

  lemma {:induction false} RowOpsPayload(x: nat, page: nat, g: Glyph, p: nat)
    requires GlyphShape(g) && p <= g.pages
    ensures p * g.width <= |g.bytes|
    ensures Payload(RowOps(x, page, g, p)) == g.bytes[p * g.width..]
    decreases g.pages - p
  {
    if p < g.pages {
      RowOpsPayload(x, page, g, p + 1);
      PayloadPair(x, page + p, Row(g, p), RowOps(x, page, g, p + 1));
      RowSplit(g, p);
    } else {
      assert p * g.width == |g.bytes|;
    }
  }

  /**
   * ShowChar draws nothing when the glyph does not fit. Otherwise it sends,
   * for each page p of the glyph, the cursor at (x, page + p) and then the
   * p-th row of `width` bytes; the rows together are the whole glyph, in order.
   */
  lemma CharOpsShape(x: nat, page: nat, g: Glyph)
    requires GlyphShape(g)
    ensures var ops := CharOps(x, page, g);
      (!Fits(x, page, g) ==> ops == []) &&
      (Fits(x, page, g) ==>
        |ops| == 2 * g.pages &&
        (forall k :: 0 <= k < |ops| ==>
          ops[k] == if k % 2 == 0 then SetCursor(x, page + k / 2) else WriteData(Row(g, k / 2))) &&
        Payload(ops) == g.bytes)
  {
    if Fits(x, page, g) {
      RowOpsShape(x, page, g, 0);
      RowOpsPayload(x, page, g, 0);
    }
  }

  function Zeros(n: nat): (z: seq<byte>)
    ensures |z| == n && forall i :: 0 <= i < n ==> z[i] == 0
  {
    seq(n, _ => 0)
  }

  lemma ZerosAppend(m: nat, n: nat)
    ensures Zeros(m) + Zeros(n) == Zeros(m + n)
  {
  }

  /** Clear, from the given page to the last: cursor at column 0 of the page, then a full row of zeros. */
  function ClearOps(page: nat): (ops: seq<DisplayOp>)
    ensures |ops| == if page < PageCount then 2 * (PageCount - page) else 0
    decreases PageCount - page
  {
    if page >= PageCount then []
    else [SetCursor(0, page), WriteData(Zeros(Columns))] + ClearOps(page + 1)
  }

  /**
   * Clear visits pages 0 to 7 in order, each time placing the cursor at
   * column 0 and writing 128 zero bytes: 1024 zero bytes in all.
   */
  lemma {:induction false} ClearOpsShape(page: nat)
    requires page <= PageCount
    ensures var ops := ClearOps(page);
      |ops| == 2 * (PageCount - page) &&
      (forall k :: 0 <= k < |ops| ==>
        ops[k] == if k % 2 == 0 then SetCursor(0, page + k / 2) else WriteData(Zeros(Columns))) &&
      Payload(ops) == Zeros(Columns * (PageCount - page))
  {
    forall k | 0 <= k < |ClearOps(page)|
      ensures ClearOps(page)[k] == if k % 2 == 0 then SetCursor(0, page + k / 2) else WriteData(Zeros(Columns))
    {
      ClearOpAt(page, k);
    }
    ClearOpsPayload(page);
  }

  /** Request k of ClearOps(page): a cursor at even k, a row of zeros at odd k. */
  lemma {:induction false} ClearOpAt(page: nat, k: nat)
    requires page <= PageCount && k < 2 * (PageCount - page)
    ensures ClearOps(page)[k] == if k % 2 == 0 then SetCursor(0, page + k / 2) else WriteData(Zeros(Columns))
    decreases PageCount - page
  {
    assert ClearOps(page) == [SetCursor(0, page), WriteData(Zeros(Columns))] + ClearOps(page + 1);
    if k >= 2 {
      ClearOpAt(page + 1, k - 2);
      HalfStep(k);
    }
  }

  lemma {:induction false} ClearOpsPayload(page: nat)
    requires page <= PageCount
    ensures Payload(ClearOps(page)) == Zeros(Columns * (PageCount - page))
    decreases PageCount - page
  {
    if page < PageCount {
      ClearOpsPayload(page + 1);
      var n := PageCount - page;
      PayloadPair(0, page, Zeros(Columns), ClearOps(page + 1));
      ZerosAppend(Columns, Columns * (n - 1));
      assert Columns + Columns * (n - 1) == Columns * n;
    }
  }

  lemma {:induction false} PayloadAppend(a: seq<DisplayOp>, b: seq<DisplayOp>)
    ensures Payload(a + b) == Payload(a) + Payload(b)
    decreases |a|
  {
    if a == [] {
      Seqs.EmptyAppend(a, b);
      Seqs.EmptyAppend(Payload(a), Payload(b));
    } else {
      Seqs.TailOfAppend(a, b);
      PayloadAppend(a[1..], b);
      Seqs.Associate(if a[0].WriteData? then a[0].bytes else [], Payload(a[1..]), Payload(b));
    }
  }

  /** ShowString's requests once the placements are known: ShowChar's requests for each, in order. */
  function StringOps(ps: seq<Placement>, font: FontSize, t: FontTables, fallback: nat): (ops: seq<DisplayOp>)
    requires WellFormed(t) && font != OtherFont && fallback < GlyphCount
    ensures |ops| <= 6 * |ps|
  {
    if ps == [] then []
    else CharOps(ps[0].x, ps[0].page, Lookup(ps[0].c, font, t, fallback)) + StringOps(ps[1..], font, t, fallback)
  }

  lemma {:induction false} StringOpsSnoc(ps: seq<Placement>, p: Placement, font: FontSize, t: FontTables, fallback: nat)
    requires WellFormed(t) && font != OtherFont && fallback < GlyphCount
    ensures StringOps(ps + [p], font, t, fallback) ==
      StringOps(ps, font, t, fallback) + CharOps(p.x, p.page, Lookup(p.c, font, t, fallback))
    decreases |ps|
  {
    if ps == [] {
      Seqs.EmptyAppend(ps, [p]);
      assert [p][1..] == [];
      Seqs.EmptyAppend(StringOps(ps, font, t, fallback), CharOps(p.x, p.page, Lookup(p.c, font, t, fallback)));
    } else {
      Seqs.TailOfAppend(ps, [p]);
      StringOpsSnoc(ps[1..], p, font, t, fallback);
      Seqs.Associate(CharOps(ps[0].x, ps[0].page, Lookup(ps[0].c, font, t, fallback)),
        StringOps(ps[1..], font, t, fallback), CharOps(p.x, p.page, Lookup(p.c, font, t, fallback)));
    }
  }

  /** The glyph bytes of the given characters, one glyph after another. */
  function GlyphBytes(cs: seq<char>, font: FontSize, t: FontTables, fallback: nat): seq<byte>
    requires WellFormed(t) && font != OtherFont && fallback < GlyphCount
  {
    if cs == [] then [] else Lookup(cs[0], font, t, fallback).bytes + GlyphBytes(cs[1..], font, t, fallback)
  }

  /**
   * When every placement leaves room for a glyph of the font, no character
   * is clipped: all pages of every glyph are sent, and the data written is
   * the glyphs of the placed characters, one after another.
   */
  lemma StringOpsUnclipped(ps: seq<Placement>, font: FontSize, t: FontTables, fallback: nat)
    requires WellFormed(t) && font != OtherFont && fallback < GlyphCount
    requires AllFit(ps, Dimensions(font).0, Dimensions(font).1)
    ensures |StringOps(ps, font, t, fallback)| == |ps| * (2 * Dimensions(font).1)
    ensures Payload(StringOps(ps, font, t, fallback)) == GlyphBytes(Chars(ps), font, t, fallback)
  {
    StringOpsCount(ps, font, t, fallback);
    StringOpsPayload(ps, font, t, fallback);
  }

  /** Two requests per page of every placed glyph. */
  lemma {:induction false} StringOpsCount(ps: seq<Placement>, font: FontSize, t: FontTables, fallback: nat)
    requires WellFormed(t) && font != OtherFont && fallback < GlyphCount
    requires AllFit(ps, Dimensions(font).0, Dimensions(font).1)
    ensures |StringOps(ps, font, t, fallback)| == |ps| * (2 * Dimensions(font).1)
    decreases |ps|
  {
    if ps != [] {
      var (w, h) := Dimensions(font);
      var g := Lookup(ps[0].c, font, t, fallback);
      var head := CharOps(ps[0].x, ps[0].page, g);
      var rest := StringOps(ps[1..], font, t, fallback);
      AllFitTail(ps, w, h);
      CharOpsFull(ps[0].x, ps[0].page, g);
      StringOpsCount(ps[1..], font, t, fallback);
      assert StringOps(ps, font, t, fallback) == head + rest;
      assert |head| == 2 * h && |rest| == (|ps| - 1) * (2 * h);
      TextLayout.MulStep(|ps|, 2 * h);
    }
  }

  /** The data written is the placed characters' glyphs, in order. */
  lemma {:induction false} StringOpsPayload(ps: seq<Placement>, font: FontSize, t: FontTables, fallback: nat)
    requires WellFormed(t) && font != OtherFont && fallback < GlyphCount
    requires AllFit(ps, Dimensions(font).0, Dimensions(font).1)
    ensures Payload(StringOps(ps, font, t, fallback)) == GlyphBytes(Chars(ps), font, t, fallback)
    decreases |ps|
  {
    if ps != [] {
      var (w, h) := Dimensions(font);
      var g := Lookup(ps[0].c, font, t, fallback);
      var head := CharOps(ps[0].x, ps[0].page, g);
      var rest := StringOps(ps[1..], font, t, fallback);
      AllFitTail(ps, w, h);
      CharOpsFull(ps[0].x, ps[0].page, g);
      StringOpsPayload(ps[1..], font, t, fallback);
      assert StringOps(ps, font, t, fallback) == head + rest;
      PayloadAppend(head, rest);
    }
  }

  lemma AllFitTail(ps: seq<Placement>, w: nat, h: nat)
    requires ps != [] && AllFit(ps, w, h)
    ensures ps[0].x + w <= Columns && ps[0].page + h <= PageCount
    ensures AllFit(ps[1..], w, h)
  {
    forall i | 0 <= i < |ps| - 1
      ensures ps[1..][i] == ps[i + 1]
    {
    }
  }

  /** A glyph that fits is sent whole: two requests per page, and all its bytes as data. */
  lemma CharOpsFull(x: nat, page: nat, g: Glyph)
    requires GlyphShape(g) && Fits(x, page, g)
    ensures |CharOps(x, page, g)| == 2 * g.pages
    ensures Payload(CharOps(x, page, g)) == g.bytes
  {
    RowOpsShape(x, page, g, 0);
    RowOpsPayload(x, page, g, 0);
  }
}
