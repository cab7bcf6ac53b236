/**
 * Where ShowString puts each character, shared by both OLED drivers: a
 * newline moves to column 0 of the next text line, a character that would
 * cross the right edge wraps to the next text line first, and drawing stops
 * at the first character whose text line would cross the bottom of the
 * panel. Column and page are uint8_t, so moving down a text line adds the
 * font height to the page modulo 256.
 */
module TextLayout {
  import opened Ssd1306

  /** One character handed to ShowChar, at column x of page `page`. */
  datatype Placement = Placement(x: nat, page: nat, c: char)

  /** The characters of a C string: everything before the first NUL. */
  function CString(s: seq<char>): (r: seq<char>)
    ensures |r| <= |s| && '\0' !in r
  {
    if s == [] || s[0] == '\0' then [] else [s[0]] + CString(s[1..])
  }

  /** The characters of the C string that are not newlines, in order. */
  function Visible(s: seq<char>): (r: seq<char>)
    ensures |r| <= |CString(s)| && '\n' !in r
  {
    if s == [] || s[0] == '\0' then []
    else if s[0] == '\n' then Visible(s[1..])
    else [s[0]] + Visible(s[1..])
  }

  /** The character of each placement, in order. */
  function Chars(placements: seq<Placement>): (r: seq<char>)
    ensures |r| == |placements|
  {
    if placements == [] then [] else [placements[0].c] + Chars(placements[1..])
  }

  lemma CharsCons(p: Placement, ps: seq<Placement>)
    ensures Chars([p] + ps) == [p.c] + Chars(ps)
  {
    assert ([p] + ps)[1..] == ps;
  }

  lemma {:induction false} CharsAt(ps: seq<Placement>, i: nat)
    requires i < |ps|
    ensures Chars(ps)[i] == ps[i].c
    decreases i
  {
    if i > 0 {
      CharsAt(ps[1..], i - 1);
    }
  }

  /** Moving down one text line of h pages, with uint8_t wrap-around. */
  function NextLine(page: Uint8, h: Uint8): Uint8
  {
    (page + h) % 256
  }

  /**
   * The characters ShowString draws from `s`, starting at (x, page), with
   * each glyph w columns wide and h pages high.
   */
  function Layout(x: Uint8, page: Uint8, s: seq<char>, w: Uint8, h: Uint8): (ps: seq<Placement>)
    ensures |ps| <= |s|
    decreases |s|
  {
    if s == [] || s[0] == '\0' then []
    else if s[0] == '\n' then Layout(0, NextLine(page, h), s[1..], w, h)
    else
      var wraps := x + w > Columns;
      var x' := if wraps then 0 else x;
      var page' := if wraps then NextLine(page, h) else page;
      if page' + h > PageCount then []
      else [Placement(x', page', s[0])] + Layout((x' + w) % 256, page', s[1..], w, h)
  }

  /*
   * One iteration of ShowString's loop at a time: if the characters placed
   * so far followed by the layout of what is left of s from index i make up
   * `all`, the same holds after the iteration.
   */

  /** Layout ends at the end of the string or at its NUL. */
  lemma ResumeAtEnd(placed: seq<Placement>, x: Uint8, page: Uint8, s: seq<char>, i: nat, w: Uint8, h: Uint8, all: seq<Placement>)
    requires i <= |s| && placed + Layout(x, page, s[i..], w, h) == all
    requires i == |s| || s[i] == '\0'
    ensures placed == all
  {
    assert placed + [] == placed;
  }

  /** A newline draws nothing and moves to column 0 of the next text line. */
  lemma ResumeNewline(placed: seq<Placement>, x: Uint8, page: Uint8, s: seq<char>, i: nat, w: Uint8, h: Uint8, all: seq<Placement>)
    requires i < |s| && placed + Layout(x, page, s[i..], w, h) == all
    requires s[i] == '\n'
    ensures placed + Layout(0, NextLine(page, h), s[i + 1..], w, h) == all
  {
    assert s[i..][1..] == s[i + 1..];
  }

  /** A character that would cross the right edge is laid out as if it started the next text line. */
  lemma ResumeWrap(placed: seq<Placement>, x: Uint8, page: Uint8, s: seq<char>, i: nat, w: Uint8, h: Uint8, all: seq<Placement>)
    requires i < |s| && placed + Layout(x, page, s[i..], w, h) == all
    requires s[i] != '\0' && s[i] != '\n'
    requires x + w > Columns && w <= Columns
    ensures placed + Layout(0, NextLine(page, h), s[i..], w, h) == all
  {
  }

  /** A character whose text line would cross the bottom ends the layout. */
  lemma ResumeStop(placed: seq<Placement>, x: Uint8, page: Uint8, s: seq<char>, i: nat, w: Uint8, h: Uint8, all: seq<Placement>)
    requires i < |s| && placed + Layout(x, page, s[i..], w, h) == all
    requires s[i] != '\0' && s[i] != '\n'
    requires x + w <= Columns && page + h > PageCount
    ensures placed == all
  {
    assert placed + [] == placed;
  }

  /** A character that fits is placed where ShowString stands, and layout goes on w columns to the right. */
  lemma ResumeDraw(placed: seq<Placement>, x: Uint8, page: Uint8, s: seq<char>, i: nat, w: Uint8, h: Uint8, all: seq<Placement>)
    requires i < |s| && placed + Layout(x, page, s[i..], w, h) == all
    requires s[i] != '\0' && s[i] != '\n'
    requires x + w <= Columns && page + h <= PageCount
    ensures placed + [Placement(x, page, s[i])] + Layout((x + w) % 256, page, s[i + 1..], w, h) == all
  {
    assert s[i..][1..] == s[i + 1..];
    LayoutPlaces(x, page, s[i..], w, h, x, page);
  }

  /** A character that is drawn is placed at (x', page'), after the wrap if any, and layout goes on w columns to the right. */
  lemma LayoutPlaces(x: Uint8, page: Uint8, s: seq<char>, w: Uint8, h: Uint8, x': Uint8, page': Uint8)
    requires s != [] && s[0] != '\0' && s[0] != '\n'
    requires if x + w > Columns then x' == 0 && page' == NextLine(page, h) else x' == x && page' == page
    requires page' + h <= PageCount
    ensures Layout(x, page, s, w, h) == [Placement(x', page', s[0])] + Layout((x' + w) % 256, page', s[1..], w, h)
  {
  }

  /** Every placement leaves room for a w by h glyph: ShowChar's bounds check passes. */
  predicate AllFit(ps: seq<Placement>, w: nat, h: nat)
  {
    forall i :: 0 <= i < |ps| ==> ps[i].x + w <= Columns && ps[i].page + h <= PageCount
  }

  /** Every character ShowString hands to ShowChar passes ShowChar's bounds check. */
  lemma {:induction false} LayoutInBounds(x: Uint8, page: Uint8, s: seq<char>, w: Uint8, h: Uint8)
    requires w <= Columns
    ensures AllFit(Layout(x, page, s, w, h), w, h)
    decreases |s|
  {
    if s == [] || s[0] == '\0' {
    } else if s[0] == '\n' {
      LayoutInBounds(0, NextLine(page, h), s[1..], w, h);
    } else {
      var wraps := x + w > Columns;
      var x' := if wraps then 0 else x;
      var page' := if wraps then NextLine(page, h) else page;
      if page' + h <= PageCount {
        LayoutInBounds((x' + w) % 256, page', s[1..], w, h);
        LayoutPlaces(x, page, s, w, h, x', page');
      }
    }
  }

  /**
   * The drawn characters are, in order, a prefix of the string's
   * non-newline characters before its NUL: newlines are never drawn, nothing
   * is skipped or reordered, and at most strlen(s) characters are drawn.
   */
  lemma {:induction false} LayoutDrawsVisiblePrefix(x: Uint8, page: Uint8, s: seq<char>, w: Uint8, h: Uint8)
    ensures Chars(Layout(x, page, s, w, h)) <= Visible(s)
    ensures |Layout(x, page, s, w, h)| <= |CString(s)|
    decreases |s|
  {
    if s == [] || s[0] == '\0' {
    } else if s[0] == '\n' {
      LayoutDrawsVisiblePrefix(0, NextLine(page, h), s[1..], w, h);
    } else {
      var wraps := x + w > Columns;
      var x' := if wraps then 0 else x;
      var page' := if wraps then NextLine(page, h) else page;
      if page' + h <= PageCount {
        var rest := Layout((x' + w) % 256, page', s[1..], w, h);
        LayoutDrawsVisiblePrefix((x' + w) % 256, page', s[1..], w, h);
        LayoutPlaces(x, page, s, w, h, x', page');
        CharsCons(Placement(x', page', s[0]), rest);
      }
    }
  }

  /**
   * Each placement after the first is exactly w columns right of the one
   * before on the same page, or at column 0 (after a newline or a wrap).
   */
  predicate Spaced(ps: seq<Placement>, w: nat)
  {
    forall i :: 0 <= i < |ps| - 1 ==>
      (ps[i + 1].x == ps[i].x + w && ps[i + 1].page == ps[i].page) || ps[i + 1].x == 0
  }

  /**
   * The first character is drawn at the starting position unless a newline
   * or a wrap moved it to column 0, and the characters after it are spaced
   * w columns apart along each text line.
   */
  lemma {:induction false} LayoutSpacing(x: Uint8, page: Uint8, s: seq<char>, w: Uint8, h: Uint8)
    requires w <= Columns
    ensures var ps := Layout(x, page, s, w, h);
      |ps| > 0 ==> (ps[0].x == x && ps[0].page == page) || ps[0].x == 0
    ensures Spaced(Layout(x, page, s, w, h), w)
    decreases |s|
  {
    if s == [] || s[0] == '\0' {
    } else if s[0] == '\n' {
      LayoutSpacing(0, NextLine(page, h), s[1..], w, h);
    } else {
      var wraps := x + w > Columns;
      var x' := if wraps then 0 else x;
      var page' := if wraps then NextLine(page, h) else page;
      if page' + h <= PageCount {
        var next := (x' + w) % 256;
        assert next == x' + w;
        var rest := Layout(next, page', s[1..], w, h);
        LayoutSpacing(next, page', s[1..], w, h);
        var ps := Layout(x, page, s, w, h);
        LayoutPlaces(x, page, s, w, h, x', page');
        forall i | 0 <= i < |ps| - 1
          ensures (ps[i + 1].x == ps[i].x + w && ps[i + 1].page == ps[i].page) || ps[i + 1].x == 0
        {
          if i > 0 {
            assert ps[i] == rest[i - 1] && ps[i + 1] == rest[i];
          }
        }
      }
    }
  }

  /** The placements of a string drawn in full on one text line. */
  predicate OnOneLine(ps: seq<Placement>, x: nat, page: nat, s: seq<char>, w: nat)
  {
    |ps| == |s| && forall i :: 0 <= i < |s| ==> ps[i] == Placement(x + i * w, page, s[i])
  }

  /**
   * A line with no newline that fits on the panel is drawn in full: the i-th
   * character at column x + i * w of the starting page.
   */
  lemma {:induction false} LayoutSingleLine(x: Uint8, page: Uint8, s: seq<char>, w: Uint8, h: Uint8)
    requires '\n' !in s && '\0' !in s
    requires x + |s| * w <= Columns && page + h <= PageCount
    ensures OnOneLine(Layout(x, page, s, w, h), x, page, s, w)
    decreases |s|
  {
    if s != [] {
      MulStep(|s|, w);
      assert (x + w) % 256 == x + w;
      var rest := Layout(x + w, page, s[1..], w, h);
      LayoutSingleLine(x + w, page, s[1..], w, h);
      var ps := Layout(x, page, s, w, h);
      LayoutPlaces(x, page, s, w, h, x, page);
      OnOneLineCons(Placement(x, page, s[0]), rest, x, page, s, w);
    }
  }

  /** A first character at (x, page) in front of a line that starts w columns further on. */
  lemma OnOneLineCons(p: Placement, rest: seq<Placement>, x: nat, page: nat, s: seq<char>, w: nat)
    requires s != [] && p == Placement(x, page, s[0])
    requires OnOneLine(rest, x + w, page, s[1..], w)
    ensures OnOneLine([p] + rest, x, page, s, w)
  {
    var ps := [p] + rest;
    forall i | 1 <= i < |s|
      ensures ps[i] == Placement(x + i * w, page, s[i])
    {
      assert ps[i] == rest[i - 1];
      MulStep(i, w);
    }
  }

  lemma MulStep(n: nat, k: nat)
    requires n >= 1
    ensures k + (n - 1) * k == n * k
  {
  }

  lemma AddMod(a: nat, b: nat)
    ensures ((a % 256) + b) % 256 == (a + b) % 256
  {
  }

  function Newlines(n: nat): (r: seq<char>)
    ensures |r| == n && forall i :: 0 <= i < n ==> r[i] == '\n'
  {
    seq(n, _ => '\n')
  }

  /** The page n text lines of h pages below `page`, moving down one line at a time. */
  function LinesDown(page: Uint8, n: nat, h: Uint8): Uint8
    decreases n
  {
    if n == 0 then page else LinesDown(NextLine(page, h), n - 1, h)
  }

  /** Moving down n lines one at a time adds n * h to the page, modulo 256. */
  lemma {:induction false} LinesDownWraps(page: Uint8, n: nat, h: Uint8)
    ensures LinesDown(page, n, h) == (page + n * h) % 256
    decreases n
  {
    if n > 0 {
      LinesDownWraps(NextLine(page, h), n - 1, h);
      assert page + h + (n - 1) * h == page + n * h;
      AddMod(page + h, (n - 1) * h);
    }
  }

  /** A run of n newlines draws nothing and moves down n text lines, one at a time. */
  lemma {:induction false} NewlinesMoveDown(x: Uint8, page: Uint8, n: nat, s: seq<char>, w: Uint8, h: Uint8)
    requires n >= 1
    ensures Layout(x, page, Newlines(n) + s, w, h) == Layout(0, LinesDown(page, n, h), s, w, h)
    decreases n
  {
    var t := Newlines(n) + s;
    assert t[0] == '\n' && t[1..] == Newlines(n - 1) + s;
    if n > 1 {
      NewlinesMoveDown(0, NextLine(page, h), n - 1, s, w, h);
    } else {
      assert Newlines(n - 1) + s == s;
    }
  }

  /**
   * A run of n >= 1 newlines draws nothing and moves to column 0, n text
   * lines down, modulo 256 pages: no bottom check happens on the way, so a
   * long enough run brings the text back onto the panel from the top.
   */
  lemma NewlinesAdvancePage(x: Uint8, page: Uint8, n: nat, s: seq<char>, w: Uint8, h: Uint8)
    requires n >= 1
    ensures Layout(x, page, Newlines(n) + s, w, h) == Layout(0, (page + n * h) % 256, s, w, h)
  {
    NewlinesMoveDown(x, page, n, s, w, h);
    LinesDownWraps(page, n, h);
  }
}
