/**
 Text at a large scale: when it is the small text with every pixel blown up. It
 is meant to be at every scale; but coordinates are 32-bit words, and a dot that
 should be far out of sight may come back into the frame.
 */
module Enlarging {
  import opened Bytes
  import opened Painting
  import opened Veils
  import opened Wrappers

  // --- what covers a point -------------------------------------------------

  /** Which rectangles cover a point, by left, top, width and height. */
  type Cover = (int, int, int, int) -> bool

  predicate Over(cover: Cover, r: Rect) {
    cover(r.x, r.y, r.w, r.h)
  }

  /** What the last rectangle over a point makes of it. */
  function SeenBy(cover: Cover, rects: seq<Rect>): Option<u16> {
    if rects == [] then None
    else if Over(cover, rects[|rects| - 1]) then Some(rects[|rects| - 1].color)
    else SeenBy(cover, rects[..|rects| - 1])
  }

  lemma {:induction false} SeenByJoin(cover: Cover, a: seq<Rect>, b: seq<Rect>)
    ensures SeenBy(cover, a + b) == if SeenBy(cover, b).Some? then SeenBy(cover, b) else SeenBy(cover, a)
  {
    if b == [] {
      assert a + b == a;
    } else {
      SeenByJoin(cover, a, b[..|b| - 1]);
      assert (a + b)[..|a + b| - 1] == a + b[..|b| - 1];
    }
  }

  lemma SeenOne(cover: Cover, r: Rect)
    ensures SeenBy(cover, [r]) == (if Over(cover, r) then Some(r.color) else None) && SeenBy(cover, []) == None
  {
    assert [r][..0] == [];
  }

  // --- the dots and cells of a text ----------------------------------------

  /** Where character `i` begins: see `CellXIs`. */
  function CellX(s: int, i: int): int {
    Veil(CellXOf, (s, i), if i > 0 then i + 3 else 3)
  }

  function CellXOf(x: (int, int)): int {
    CELL_WIDTH * x.0 * x.1
  }

  lemma CellXIs(s: int, i: int)
    ensures CellX(s, i) == CELL_WIDTH * s * i
  {
    Lift(CellXOf, (s, i), if i > 0 then i + 3 else 3);
  }

  lemma NextCellX(s: int, i: int)
    ensures CellX(s, i + 1) == CellX(s, i) + CELL_WIDTH * s
  {
    CellXIs(s, i);
    CellXIs(s, i + 1);
    assert CELL_WIDTH * s * (i + 1) == CELL_WIDTH * s * i + CELL_WIDTH * s;
  }

  /** The dot in `row` of column `col` of character `i`. */
  function DotAt(s: int, i: int, col: int, row: int): Rect {
    Rect(CellX(s, i) + col * s, row * s, s, s, 0)
  }

  /** The background of character `i`. */
  function CellAt(s: int, i: int): Rect {
    Rect(CellX(s, i), 0, CELL_WIDTH * s, CELL_HEIGHT * s, 0)
  }

  ghost predicate CellOver(cover: Cover, s: int, from: int, to: int) {
    exists k :: from <= k < to && Over(cover, CellAt(s, k))
  }

  /** A dot covers the point, and no background painted after it does. */
  ghost predicate DotOver(cover: Cover, cells: bool, s: int, i: int, to: int, col: int, row: int) {
    Over(cover, DotAt(s, i, col, row)) && !(cells && CellOver(cover, s, i + 1, to))
  }

  predicate DotSet(font: Font, ch: char, col: int, row: int) {
    0 <= col < GLYPH_WIDTH && 0 <= row < GLYPH_HEIGHT && Bit(Glyph(font, ch)[col], row)
  }

  // --- what a text shows ---------------------------------------------------

  predicate ColumnOver(cover: Cover, s: int, i: int, col: int, bits: byte, n: nat)
    requires n <= GLYPH_HEIGHT
  {
    exists row :: 0 <= row < n && Bit(bits, row) && Over(cover, DotAt(s, i, col, row))
  }

  lemma ColumnOverStep(cover: Cover, s: int, i: int, col: int, bits: byte, n: nat)
    requires 0 < n <= GLYPH_HEIGHT
    ensures ColumnOver(cover, s, i, col, bits, n)
       <==> ColumnOver(cover, s, i, col, bits, n - 1) || (Bit(bits, n - 1) && Over(cover, DotAt(s, i, col, n - 1)))
  {}

  lemma {:induction false} ColumnSeen(cover: Cover, x: int, s: int, i: int, col: int, bits: byte, fg: u16, n: nat)
    requires n <= GLYPH_HEIGHT && x == DotAt(s, i, col, 0).x
    ensures SeenBy(cover, ColumnRects(x, 0, bits, fg, s, n)) == if ColumnOver(cover, s, i, col, bits, n) then Some(fg) else None
  {
    if n > 0 {
      ColumnSeen(cover, x, s, i, col, bits, fg, n - 1);
      ColumnOverStep(cover, s, i, col, bits, n);
      var dot := Rect(x, 0 + (n - 1) * s, s, s, fg);
      SeenOne(cover, dot);
      SeenByJoin(cover, ColumnRects(x, 0, bits, fg, s, n - 1), if Bit(bits, n - 1) then [dot] else []);
      assert DotAt(s, i, col, n - 1) == dot.(color := 0);
    }
  }

  predicate GlyphOver(cover: Cover, s: int, i: int, glyph: seq<byte>, n: nat)
    requires n <= |glyph|
  {
    exists col :: 0 <= col < n && ColumnOver(cover, s, i, col, glyph[col], GLYPH_HEIGHT)
  }

  lemma GlyphOverStep(cover: Cover, s: int, i: int, glyph: seq<byte>, n: nat)
    requires 0 < n <= |glyph|
    ensures GlyphOver(cover, s, i, glyph, n)
       <==> GlyphOver(cover, s, i, glyph, n - 1) || ColumnOver(cover, s, i, n - 1, glyph[n - 1], GLYPH_HEIGHT)
  {}

  lemma GlyphRectsSplit(x: int, glyph: seq<byte>, fg: u16, s: int, n: nat)
    requires 0 < n <= |glyph|
    ensures GlyphRects(x, 0, glyph, fg, s, n) ==
      GlyphRects(x, 0, glyph, fg, s, n - 1) + ColumnRects(x + (n - 1) * s, 0, glyph[n - 1], fg, s, GLYPH_HEIGHT)
  {}

  lemma NextColumnSeen(cover: Cover, s: int, i: int, glyph: seq<byte>, fg: u16, n: nat, x: int, before: seq<Rect>)
    requires 0 < n <= |glyph| && x == CellX(s, i) + (n - 1) * s
    requires SeenBy(cover, before) == if GlyphOver(cover, s, i, glyph, n - 1) then Some(fg) else None
    ensures SeenBy(cover, before + ColumnRects(x, 0, glyph[n - 1], fg, s, GLYPH_HEIGHT)) ==
      if GlyphOver(cover, s, i, glyph, n) then Some(fg) else None
  {
    ColumnSeen(cover, x, s, i, n - 1, glyph[n - 1], fg, GLYPH_HEIGHT);
    SeenByJoin(cover, before, ColumnRects(x, 0, glyph[n - 1], fg, s, GLYPH_HEIGHT));
    GlyphOverStep(cover, s, i, glyph, n);
  }

  lemma {:induction false} GlyphSeen(cover: Cover, x: int, s: int, i: int, glyph: seq<byte>, fg: u16, n: nat)
    requires n <= |glyph| && x == CellX(s, i)
    ensures SeenBy(cover, GlyphRects(x, 0, glyph, fg, s, n)) == if GlyphOver(cover, s, i, glyph, n) then Some(fg) else None
  {
    if n == 0 {
      assert GlyphRects(x, 0, glyph, fg, s, 0) == [];
    } else {
      GlyphSeen(cover, x, s, i, glyph, fg, n - 1);
      GlyphRectsSplit(x, glyph, fg, s, n);
      NextColumnSeen(cover, s, i, glyph, fg, n, x + (n - 1) * s, GlyphRects(x, 0, glyph, fg, s, n - 1));
    }
  }

  /** A character: its dots before its background. */
  lemma CharSeen(cover: Cover, s: int, i: int, glyph: seq<byte>, fg: u16, bg: Option<u16>)
    requires |glyph| == GLYPH_WIDTH
    ensures SeenBy(cover, CharRects(CellX(s, i), 0, glyph, fg, bg, s)) ==
      if GlyphOver(cover, s, i, glyph, GLYPH_WIDTH) then Some(fg)
      else if bg.Some? && Over(cover, CellAt(s, i)) then bg else None
  {
    GlyphSeen(cover, CellX(s, i), s, i, glyph, fg, GLYPH_WIDTH);
    SeenByJoin(cover, CellRects(CellX(s, i), 0, bg, s), GlyphRects(CellX(s, i), 0, glyph, fg, s, GLYPH_WIDTH));
    if bg.Some? {
      SeenOne(cover, Rect(CellX(s, i), 0, CELL_WIDTH * s, CELL_HEIGHT * s, bg.value));
    }
  }

  /** Some dot of the text that begins with character `from` covers the point, and no background painted after it does. */
  ghost predicate TextOver(cover: Cover, cells: bool, font: Font, text: seq<char>, s: int, from: int) {
    exists k, col, row :: LitDot(cover, cells, font, text, s, from, k, col, row)
  }

  ghost predicate LitDot(cover: Cover, cells: bool, font: Font, text: seq<char>, s: int, from: int, k: int, col: int, row: int) {
    0 <= k < |text| && DotSet(font, text[k], col, row) && DotOver(cover, cells, s, from + k, from + |text|, col, row)
  }

  lemma LitDotNext(cover: Cover, cells: bool, font: Font, text: seq<char>, s: int, from: int, k: int, col: int, row: int)
    requires text != [] && k >= 1
    ensures LitDot(cover, cells, font, text, s, from, k, col, row)
       <==> LitDot(cover, cells, font, text[1..], s, from + 1, k - 1, col, row)
  {}

  /** A text that is not empty: its first character, and the rest. */
  lemma TextOverSplit(cover: Cover, cells: bool, font: Font, text: seq<char>, s: int, from: int)
    requires text != []
    ensures TextOver(cover, cells, font, text, s, from) <==>
      || TextOver(cover, cells, font, text[1..], s, from + 1)
      || (GlyphOver(cover, s, from, Glyph(font, text[0]), GLYPH_WIDTH) && !(cells && CellOver(cover, s, from + 1, from + |text|)))
  {
    if k, col, row :| LitDot(cover, cells, font, text, s, from, k, col, row) {
      if k >= 1 {
        LitDotNext(cover, cells, font, text, s, from, k, col, row);
      } else {
        assert ColumnOver(cover, s, from, col, Glyph(font, text[0])[col], GLYPH_HEIGHT);
      }
    }
    var rest, next := text[1..], from + 1;
    if k, col, row :| LitDot(cover, cells, font, rest, s, next, k, col, row) {
      LitDotNext(cover, cells, font, text, s, from, k + 1, col, row);
    }
    if GlyphOver(cover, s, from, Glyph(font, text[0]), GLYPH_WIDTH) && !(cells && CellOver(cover, s, from + 1, from + |text|)) {
      var col :| 0 <= col < GLYPH_WIDTH && ColumnOver(cover, s, from, col, Glyph(font, text[0])[col], GLYPH_HEIGHT);
      var row :| 0 <= row < GLYPH_HEIGHT && Bit(Glyph(font, text[0])[col], row) && Over(cover, DotAt(s, from, col, row));
      assert LitDot(cover, cells, font, text, s, from, 0, col, row);
    }
  }

  lemma CellOverSplit(cover: Cover, s: int, from: int, to: int)
    requires from < to
    ensures CellOver(cover, s, from, to) <==> CellOver(cover, s, from + 1, to) || Over(cover, CellAt(s, from))
  {}

  lemma TextRectsSplit(font: Font, x: int, y: int, text: seq<char>, fg: u16, bg: Option<u16>, s: int)
    requires text != []
    ensures TextRects(font, x, y, text, fg, bg, s) ==
      CharRects(x, y, Glyph(font, text[0]), fg, bg, s) + TextRects(font, x + CELL_WIDTH * s, y, text[1..], fg, bg, s)
  {}

  lemma FirstThenRest(cover: Cover, font: Font, text: seq<char>, fg: u16, bg: Option<u16>, s: int, from: nat)
    requires text != []
    ensures SeenBy(cover, TextRects(font, CellX(s, from), 0, text, fg, bg, s)) ==
      var rest := SeenBy(cover, TextRects(font, CellX(s, from + 1), 0, text[1..], fg, bg, s));
      if rest.Some? then rest
      else if GlyphOver(cover, s, from, Glyph(font, text[0]), GLYPH_WIDTH) then Some(fg)
      else if bg.Some? && Over(cover, CellAt(s, from)) then bg else None
  {
    var first, rest := CharRects(CellX(s, from), 0, Glyph(font, text[0]), fg, bg, s), TextRects(font, CellX(s, from + 1), 0, text[1..], fg, bg, s);
    assert TextRects(font, CellX(s, from), 0, text, fg, bg, s) == first + rest by {
      NextCellX(s, from);
      TextRectsSplit(font, CellX(s, from), 0, text, fg, bg, s);
    }
    SeenByJoin(cover, first, rest);
    CharSeen(cover, s, from, Glyph(font, text[0]), fg, bg);
  }

  /** What a text makes of the point. */
  lemma {:induction false} TextSeen(cover: Cover, font: Font, text: seq<char>, fg: u16, bg: Option<u16>, s: int, from: nat)
    ensures SeenBy(cover, TextRects(font, CellX(s, from), 0, text, fg, bg, s)) ==
      if TextOver(cover, bg.Some?, font, text, s, from) then Some(fg)
      else if bg.Some? && CellOver(cover, s, from, from + |text|) then bg else None
    decreases |text|
  {
    if text != [] {
      TextSeen(cover, font, text[1..], fg, bg, s, from + 1);
      FirstThenRest(cover, font, text, fg, bg, s, from);
      TextOverSplit(cover, bg.Some?, font, text, s, from);
      CellOverSplit(cover, s, from, from + |text|);
    }
  }

  // --- drawn and meant -----------------------------------------------------

  /** The rectangles that cover a point, as they are drawn, if `wraps`, or as they are meant. */
  function Point(wraps: bool, px: int, py: int): Cover {
    Veil(PointOf, (wraps, px, py), if px > 0 then px + 3 else 3)
  }

  function PointOf(p: (bool, int, int)): Cover {
    (x, y, w, h) => (if p.0 then Wrapped(Rect(x, y, w, h, 0)) else Rect(x, y, w, h, 0)).Has(p.1, p.2)
  }

  lemma PointIs(wraps: bool, px: int, py: int, r: Rect)
    ensures Over(Point(wraps, px, py), r) <==> (if wraps then Wrapped(r) else r).Has(px, py)
  {
    Lift(PointOf, (wraps, px, py), if px > 0 then px + 3 else 3);
  }

  lemma {:induction false} SeenDrawn(rects: seq<Rect>, px: int, py: int)
    ensures SeenBy(Point(true, px, py), rects) == Seen(WrappedAll(rects), px, py)
  {
    if rects != [] {
      var n := |rects| - 1;
      SeenDrawn(rects[..n], px, py);
      PointIs(true, px, py, rects[n]);
      WrappedLength(rects[..n]);
      assert WrappedAll(rects)[..n] == WrappedAll(rects[..n]);
    }
  }

  lemma {:induction false} WrappedLength(rects: seq<Rect>)
    ensures |WrappedAll(rects)| == |rects|
  {
    if rects != [] {
      WrappedLength(rects[..|rects| - 1]);
    }
  }

  // --- scales --------------------------------------------------------------

  /** As meant, a rectangle `s` times as large covers what the small one covers, blown up. */
  lemma LargeCovers(small: Rect, large: Rect, s: int, px: int, py: int)
    requires s >= 1
    requires large.x == s * small.x && large.y == s * small.y
    requires large.x + large.w == s * (small.x + small.w) && large.y + large.h == s * (small.y + small.h)
    ensures Over(Point(false, px, py), large) <==> Over(Point(false, px / s, py / s), small)
  {
    PointIs(false, px, py, large);
    PointIs(false, px / s, py / s, small);
    BelowFloor(px, s, small.x);
    BelowFloor(px, s, small.x + small.w);
    BelowFloor(py, s, small.y);
    BelowFloor(py, s, small.y + small.h);
  }

  lemma DotScales(s: int, i: int, col: int, row: int, px: int, py: int)
    requires s >= 1
    ensures Over(Point(false, px, py), DotAt(s, i, col, row)) <==> Over(Point(false, px / s, py / s), DotAt(1, i, col, row))
  {
    var x := CELL_WIDTH * i + col;
    CellXIs(s, i);
    CellXIs(1, i);
    assert CELL_WIDTH * s * i + col * s == s * x && s * x + s == s * (x + 1) && row * s == s * row && s * row + s == s * (row + 1);
    assert CELL_WIDTH * 1 * i + col * 1 == x;
    LargeCovers(DotAt(1, i, col, row), DotAt(s, i, col, row), s, px, py);
  }

  lemma CellScales(s: int, i: int, px: int, py: int)
    requires s >= 1
    ensures Over(Point(false, px, py), CellAt(s, i)) <==> Over(Point(false, px / s, py / s), CellAt(1, i))
  {
    var x := CELL_WIDTH * i;
    CellXIs(s, i);
    CellXIs(1, i);
    assert CELL_WIDTH * s * i == s * x && s * x + CELL_WIDTH * s == s * (x + CELL_WIDTH) && CELL_HEIGHT * s == s * CELL_HEIGHT;
    assert CELL_WIDTH * 1 * i == x;
    LargeCovers(CellAt(1, i), CellAt(s, i), s, px, py);
  }

  lemma CellsScale(s: int, from: int, to: int, px: int, py: int)
    requires s >= 1
    ensures CellOver(Point(false, px, py), s, from, to) <==> CellOver(Point(false, px / s, py / s), 1, from, to)
  {
    forall k
      ensures Over(Point(false, px, py), CellAt(s, k)) <==> Over(Point(false, px / s, py / s), CellAt(1, k))
    {
      CellScales(s, k, px, py);
    }
  }

  lemma DotOverScales(cells: bool, s: int, i: int, to: int, col: int, row: int, px: int, py: int)
    requires s >= 1
    ensures DotOver(Point(false, px, py), cells, s, i, to, col, row) <==> DotOver(Point(false, px / s, py / s), cells, 1, i, to, col, row)
  {
    DotScales(s, i, col, row, px, py);
    CellsScale(s, i + 1, to, px, py);
  }

  // --- the condition -------------------------------------------------------

  predicate IsDot(n: nat, i: int, col: int, row: int) {
    0 <= i < n && 0 <= col < GLYPH_WIDTH && 0 <= row < GLYPH_HEIGHT
  }

  /** At one point: each dot shows where it is meant to, and so does the background, if there is one. */
  ghost predicate TrueAt(n: nat, s: int, cells: bool, px: int, py: int) {
    && (forall i, col, row :: IsDot(n, i, col, row) ==>
          (DotOver(Point(true, px, py), cells, s, i, n, col, row) <==> DotOver(Point(false, px, py), cells, s, i, n, col, row)))
    && (cells ==> (CellOver(Point(true, px, py), s, 0, n) <==> CellOver(Point(false, px, py), s, 0, n)))
  }

  /**
   No dot of a text of `n` characters comes back into the frame from beyond 32 bits,
   and none is lost: a matter of the length and the scale only. Without a background
   it says of each of the 35 dots of each character that the rectangle that is drawn
   covers the same pixels of the frame as the one that is meant.
   */
  ghost predicate TrueToScale(n: nat, s: int, cells: bool) {
    forall px, py :: InFrame(px, py) ==> TrueAt(n, s, cells, px, py)
  }

  lemma WithoutBackground(n: nat, s: int)
    ensures TrueToScale(n, s, false) <==>
      forall px, py, i, col, row :: InFrame(px, py) && IsDot(n, i, col, row) ==>
        (Wrapped(DotAt(s, i, col, row)).Has(px, py) <==> DotAt(s, i, col, row).Has(px, py))
  {
    forall px, py, i, col, row | InFrame(px, py) && IsDot(n, i, col, row)
      ensures DotOver(Point(true, px, py), false, s, i, n, col, row) <==> Wrapped(DotAt(s, i, col, row)).Has(px, py)
      ensures DotOver(Point(false, px, py), false, s, i, n, col, row) <==> DotAt(s, i, col, row).Has(px, py)
    {
      PointIs(true, px, py, DotAt(s, i, col, row));
      PointIs(false, px, py, DotAt(s, i, col, row));
    }
    if TrueToScale(n, s, false) {
      forall px, py, i, col, row | InFrame(px, py) && IsDot(n, i, col, row)
        ensures Wrapped(DotAt(s, i, col, row)).Has(px, py) <==> DotAt(s, i, col, row).Has(px, py)
      {
        assert TrueAt(n, s, false, px, py);
      }
    }
  }

  // --- what enlarging means ------------------------------------------------

  predicate Uniform(blank: Image) {
    forall p, q :: 0 <= p < WIDTH && 0 <= q < HEIGHT ==> Pixel(blank, p, q) == Pixel(blank, 0, 0)
  }

  /** A text drawn at the origin of a blank frame at scale 1, and at scale `s`. */
  ghost predicate Pair(font: Font, text: seq<char>, fg: u16, bg: Option<u16>, s: int, blank: Image, small: Image, big: Image) {
    && Uniform(blank)
    && Drawn(blank, TextRects(font, 0, 0, text, fg, bg, 1), small)
    && Drawn(blank, TextRects(font, 0, 0, text, fg, bg, s), big)
  }

  /** Every pixel of the small picture is blown up, up to the last visible one. */
  predicate BlownUp(small: Image, big: Image, s: int)
    requires s >= 1
  {
    forall x, y :: 0 <= x < WIDTH && 0 <= y < HEIGHT ==> InFrame(x / s, y / s) && Pixel(big, x, y) == Pixel(small, x / s, y / s)
  }

  /** Every text of `n` characters, in every font and colour, is enlarged. */
  ghost predicate Enlarges(n: nat, s: int, cells: bool)
    requires s >= 1
  {
    forall font: Font, text: seq<char>, fg: u16, bg: Option<u16>, blank: Image, small: Image, big: Image ::
      |text| == n && bg.Some? == cells && Pair(font, text, fg, bg, s, blank, small, big) ==> BlownUp(small, big, s)
  }

  lemma InFrameScaled(s: int, x: int, y: int)
    requires s >= 1 && InFrame(x, y)
    ensures InFrame(x / s, y / s)
  {
    BelowFloor(x, s, 0);
    BelowFloor(y, s, 0);
    BelowFloor(x, s, WIDTH);
    BelowFloor(y, s, HEIGHT);
    MulMonotone(1, s, WIDTH);
    MulMonotone(1, s, HEIGHT);
    assert s * WIDTH >= WIDTH && s * HEIGHT >= HEIGHT && s * 0 == 0;
  }

  /** The text as drawn, point by point. */
  lemma TextDrawn(font: Font, text: seq<char>, fg: u16, bg: Option<u16>, s: int, blank: Image, after: Image, px: int, py: int)
    requires InFrame(px, py) && Drawn(blank, TextRects(font, 0, 0, text, fg, bg, s), after)
    ensures Pixel(after, px, py) ==
      if TextOver(Point(true, px, py), bg.Some?, font, text, s, 0) then fg
      else if bg.Some? && CellOver(Point(true, px, py), s, 0, |text|) then bg.value else Pixel(blank, px, py)
  {
    var rects := TextRects(font, 0, 0, text, fg, bg, s);
    DrawnIs(blank, rects, after);
    PaintedIs(blank, WrappedAll(rects), after);
    SeenDrawn(rects, px, py);
    CellXIs(s, 0);
    TextSeen(Point(true, px, py), font, text, fg, bg, s, 0);
  }

  lemma TextOverAs(cells: bool, font: Font, text: seq<char>, s: int, px: int, py: int)
    requires InFrame(px, py) && TrueAt(|text|, s, cells, px, py)
    ensures TextOver(Point(true, px, py), cells, font, text, s, 0) <==> TextOver(Point(false, px, py), cells, font, text, s, 0)
  {
    forall k, col, row
      ensures LitDot(Point(true, px, py), cells, font, text, s, 0, k, col, row) <==> LitDot(Point(false, px, py), cells, font, text, s, 0, k, col, row)
    {
      assert IsDot(|text|, k, col, row) ==>
        (DotOver(Point(true, px, py), cells, s, k, |text|, col, row) <==> DotOver(Point(false, px, py), cells, s, k, |text|, col, row));
    }
  }

  lemma TextOverScales(cells: bool, font: Font, text: seq<char>, s: int, px: int, py: int)
    requires s >= 1
    ensures TextOver(Point(false, px, py), cells, font, text, s, 0) <==> TextOver(Point(false, px / s, py / s), cells, font, text, 1, 0)
  {
    var qx, qy := px / s, py / s;
    forall k, col, row
      ensures LitDot(Point(false, px, py), cells, font, text, s, 0, k, col, row) <==> LitDot(Point(false, qx, qy), cells, font, text, 1, 0, k, col, row)
    {
      DotOverScales(cells, s, 0 + k, 0 + |text|, col, row, px, py);
    }
  }

  /** A text that is true to scale, and is so when small, is enlarged. */
  lemma TrueIsEnlarged(font: Font, text: seq<char>, fg: u16, bg: Option<u16>, s: int, blank: Image, small: Image, big: Image)
    requires s >= 1 && TrueToScale(|text|, s, bg.Some?) && TrueToScale(|text|, 1, bg.Some?)
    requires Pair(font, text, fg, bg, s, blank, small, big)
    ensures BlownUp(small, big, s)
  {
    forall x, y | 0 <= x < WIDTH && 0 <= y < HEIGHT
      ensures InFrame(x / s, y / s) && Pixel(big, x, y) == Pixel(small, x / s, y / s)
    {
      InFrameScaled(s, x, y);
      PixelEnlarged(font, text, fg, bg, s, blank, small, big, x, y, x / s, y / s);
    }
  }

  lemma PixelEnlarged(font: Font, text: seq<char>, fg: u16, bg: Option<u16>, s: int, blank: Image, small: Image, big: Image,
      x: int, y: int, qx: int, qy: int)
    requires s >= 1 && InFrame(x, y) && InFrame(qx, qy) && qx == x / s && qy == y / s
    requires TrueAt(|text|, s, bg.Some?, x, y) && TrueAt(|text|, 1, bg.Some?, qx, qy)
    requires Pair(font, text, fg, bg, s, blank, small, big)
    ensures Pixel(big, x, y) == Pixel(small, qx, qy)
  {
    TextDrawn(font, text, fg, bg, s, blank, big, x, y);
    TextDrawn(font, text, fg, bg, 1, blank, small, qx, qy);
    TextOverAs(bg.Some?, font, text, s, x, y);
    TextOverAs(bg.Some?, font, text, 1, qx, qy);
    TextOverScales(bg.Some?, font, text, s, x, y);
    CellsScale(s, 0, |text|, x, y);
    assert Pixel(blank, x, y) == Pixel(blank, 0, 0) == Pixel(blank, qx, qy);
  }

  // --- the other way -------------------------------------------------------

  function ByteOf(c: u16, k: nat): byte {
    if k % 2 == 0 then c / 0x100 else c % 0x100
  }

  function ColourAt(before: Image, rects: seq<Rect>, p: nat): u16
    requires p < WIDTH * HEIGHT
  {
    Seen(rects, p % WIDTH, p / WIDTH).GetOr(Pixel(before, p % WIDTH, p / WIDTH))
  }

  /** There is a picture of every list of rectangles. */
  lemma APainting(before: Image, rects: seq<Rect>) returns (after: Image)
    ensures Painted(before, rects, after)
  {
    after := seq(BYTES, k requires 0 <= k < BYTES => ByteOf(ColourAt(before, rects, k / 2), k));
    PaintedIs(before, rects, after);
    forall x, y | InFrame(x, y)
      ensures Pixel(after, x, y) == Seen(rects, x, y).GetOr(Pixel(before, x, y))
    {
      var p: nat := y * WIDTH + x;
      assert p % WIDTH == x && p / WIDTH == y && (2 * p) / 2 == p && (2 * p + 1) / 2 == p;
      assert after[2 * p] == ByteOf(ColourAt(before, rects, p), 2 * p) && after[2 * p + 1] == ByteOf(ColourAt(before, rects, p), 2 * p + 1);
    }
  }

  lemma ADrawing(before: Image, rects: seq<Rect>) returns (after: Image)
    ensures Drawn(before, rects, after)
  {
    after := APainting(before, WrappedAll(rects));
    DrawnIs(before, rects, after);
  }

  lemma BlackIsUniform(black: Image)
    requires black == Repeat(0, BYTES)
    ensures Uniform(black) && Pixel(black, 0, 0) == 0
  {}

  /** A text on black at both scales. */
  lemma APair(font: Font, text: seq<char>, fg: u16, bg: Option<u16>, s: int) returns (blank: Image, small: Image, big: Image)
    ensures Pair(font, text, fg, bg, s, blank, small, big) && Pixel(blank, 0, 0) == 0
  {
    blank := Repeat(0, BYTES);
    BlackIsUniform(blank);
    small := ADrawing(blank, TextRects(font, 0, 0, text, fg, bg, 1));
    big := ADrawing(blank, TextRects(font, 0, 0, text, fg, bg, s));
  }

  const DOT_CHAR := '!'

  /** Glyph `k` of a font in which one character has one dot, and all others none. */
  function OneDotGlyph(k: nat, col: int, row: int): (g: seq<byte>)
    requires 0 <= col < GLYPH_WIDTH && 0 <= row < GLYPH_HEIGHT
    ensures |g| == GLYPH_WIDTH
    ensures forall c :: 0 <= c < GLYPH_WIDTH ==> g[c] == if k == DOT_CHAR as int - 32 && c == col then POWERS[row] else 0
  {
    if k == DOT_CHAR as int - 32 then [0, 0, 0, 0, 0][col := POWERS[row]] else [0, 0, 0, 0, 0]
  }

  function OneDotFont(col: int, row: int): Font
    requires 0 <= col < GLYPH_WIDTH && 0 <= row < GLYPH_HEIGHT
  {
    seq(GLYPHS, k requires 0 <= k < GLYPHS => OneDotGlyph(k, col, row))
  }

  lemma OneBit(row: int, k: int)
    requires 0 <= row < GLYPH_HEIGHT && 0 <= k < GLYPH_HEIGHT
    ensures (Bit(POWERS[row], k) <==> k == row) && !Bit(0, k)
  {
    BitIs(POWERS[row], k);
    BitIs(0, k);
  }

  lemma OneDotSet(col: int, row: int, ch: char, c: int, r: int)
    requires 0 <= col < GLYPH_WIDTH && 0 <= row < GLYPH_HEIGHT && (ch == DOT_CHAR || ch == ' ')
    ensures DotSet(OneDotFont(col, row), ch, c, r) <==> ch == DOT_CHAR && c == col && r == row
  {
    if 0 <= c < GLYPH_WIDTH && 0 <= r < GLYPH_HEIGHT {
      OneBit(row, r);
    }
  }

  /** A text with one dot in all. */
  function OneDotText(n: nat, i: int): (t: seq<char>)
    ensures |t| == n
  {
    seq(n, k => if k == i then DOT_CHAR else ' ')
  }

  lemma OneDotOver(cover: Cover, cells: bool, s: int, n: nat, i: int, col: int, row: int)
    requires 0 <= col < GLYPH_WIDTH && 0 <= row < GLYPH_HEIGHT
    ensures TextOver(cover, cells, OneDotFont(col, row), OneDotText(n, i), s, 0)
       <==> 0 <= i < n && DotOver(cover, cells, s, i, n, col, row)
  {
    var font, text := OneDotFont(col, row), OneDotText(n, i);
    forall k, c, r
      ensures LitDot(cover, cells, font, text, s, 0, k, c, r)
         <==> 0 <= i < n && k == i && c == col && r == row && DotOver(cover, cells, s, i, n, col, row)
    {
      if 0 <= k < n {
        OneDotSet(col, row, text[k], c, r);
      }
    }
    if 0 <= i < n && DotOver(cover, cells, s, i, n, col, row) {
      assert LitDot(cover, cells, font, text, s, 0, i, col, row);
    }
  }

  /** What both pictures of a text with at most one dot show at corresponding points. */
  lemma OneDotPictures(n: nat, s: int, cells: bool, i: int, col: int, row: int, x: int, y: int, qx: int, qy: int)
    requires s >= 1 && Enlarges(n, s, cells) && InFrame(x, y) && qx == x / s && qy == y / s
    requires 0 <= col < GLYPH_WIDTH && 0 <= row < GLYPH_HEIGHT
    ensures InFrame(qx, qy)
    ensures (0 <= i < n && DotOver(Point(true, x, y), cells, s, i, n, col, row)) <==> (0 <= i < n && DotOver(Point(true, qx, qy), cells, 1, i, n, col, row))
    ensures !(0 <= i < n) && cells ==> (CellOver(Point(true, x, y), s, 0, n) <==> CellOver(Point(true, qx, qy), 1, 0, n))
  {
    var font, text := OneDotFont(col, row), OneDotText(n, i);
    var bg: Option<u16> := if cells then Some(2) else None;
    var blank, small, big := APair(font, text, 1, bg, s);
    assert BlownUp(small, big, s);
    assert InFrame(qx, qy) && Pixel(big, x, y) == Pixel(small, qx, qy);
    TextDrawn(font, text, 1, bg, s, blank, big, x, y);
    TextDrawn(font, text, 1, bg, 1, blank, small, qx, qy);
    OneDotOver(Point(true, x, y), cells, s, n, i, col, row);
    OneDotOver(Point(true, qx, qy), cells, 1, n, i, col, row);
    assert Pixel(blank, x, y) == Pixel(blank, 0, 0) == 0;
    assert Pixel(blank, qx, qy) == Pixel(blank, 0, 0) == 0;
  }

  lemma DotMustBeTrue(n: nat, s: int, cells: bool, i: int, col: int, row: int, x: int, y: int)
    requires s >= 1 && Enlarges(n, s, cells) && TrueToScale(n, 1, cells) && InFrame(x, y) && IsDot(n, i, col, row)
    ensures DotOver(Point(true, x, y), cells, s, i, n, col, row) <==> DotOver(Point(false, x, y), cells, s, i, n, col, row)
  {
    OneDotPictures(n, s, cells, i, col, row, x, y, x / s, y / s);
    assert TrueAt(n, 1, cells, x / s, y / s);
    DotOverScales(cells, s, i, n, col, row, x, y);
  }

  lemma CellsMustBeTrue(n: nat, s: int, x: int, y: int)
    requires s >= 1 && Enlarges(n, s, true) && TrueToScale(n, 1, true) && InFrame(x, y)
    ensures CellOver(Point(true, x, y), s, 0, n) <==> CellOver(Point(false, x, y), s, 0, n)
  {
    OneDotPictures(n, s, true, n, 0, 0, x, y, x / s, y / s);
    assert TrueAt(n, 1, true, x / s, y / s);
    CellsScale(s, 0, n, x, y);
  }

  /**
   Exactly when text is enlarged: every text of `n` characters, in every font and
   colour, with a background or without one, if and only if `n` and `s` are true to
   scale. (`SmallIsTrueIff` says of which lengths that is so at scale 1.)
   */
  lemma EnlargesIff(n: nat, s: int, cells: bool)
    requires s >= 1 && TrueToScale(n, 1, cells)
    ensures Enlarges(n, s, cells) <==> TrueToScale(n, s, cells)
  {
    if Enlarges(n, s, cells) {
      forall px, py | InFrame(px, py)
        ensures TrueAt(n, s, cells, px, py)
      {
        forall i, col, row | IsDot(n, i, col, row)
          ensures DotOver(Point(true, px, py), cells, s, i, n, col, row) <==> DotOver(Point(false, px, py), cells, s, i, n, col, row)
        {
          DotMustBeTrue(n, s, cells, i, col, row, px, py);
        }
        if cells {
          CellsMustBeTrue(n, s, px, py);
        }
      }
    }
    if TrueToScale(n, s, cells) {
      forall font: Font, text: seq<char>, fg: u16, bg: Option<u16>, blank: Image, small: Image, big: Image
        | |text| == n && bg.Some? == cells && Pair(font, text, fg, bg, s, blank, small, big)
        ensures BlownUp(small, big, s)
      {
        TrueIsEnlarged(font, text, fg, bg, s, blank, small, big);
      }
    }
  }

  // --- where 32 bits suffice, and where they do not ------------------------

  /** The longest text whose small picture is as meant. */
  const LONGEST := 0x2AAA_AAAA

  lemma SmallDot(i: nat, col: int, row: int, px: int, py: int)
    requires i < LONGEST && 0 <= col < GLYPH_WIDTH && 0 <= row < GLYPH_HEIGHT && InFrame(px, py)
    ensures Over(Point(true, px, py), DotAt(1, i, col, row)) <==> Over(Point(false, px, py), DotAt(1, i, col, row))
  {
    CellXIs(1, i);
    var x := CELL_WIDTH * i + col;
    assert DotAt(1, i, col, row) == Rect(x, row, 1, 1, 0);
    PointIs(true, px, py, DotAt(1, i, col, row));
    PointIs(false, px, py, DotAt(1, i, col, row));
    FarWraps(x);
  }

  /** A column that is out of sight is drawn left of the frame, if not where it is meant. */
  lemma FarWraps(x: int)
    requires 0 <= x < 0x1_0000_0000
    ensures Wrap(x) == if x < 0x8000_0000 then x else x - 0x1_0000_0000
  {}

  lemma SmallCell(i: nat, px: int, py: int)
    requires i < LONGEST && InFrame(px, py)
    ensures Over(Point(true, px, py), CellAt(1, i)) <==> Over(Point(false, px, py), CellAt(1, i))
  {
    CellXIs(1, i);
    assert CellAt(1, i) == Rect(CELL_WIDTH * i, 0, CELL_WIDTH, CELL_HEIGHT, 0);
    PointIs(true, px, py, CellAt(1, i));
    PointIs(false, px, py, CellAt(1, i));
    FarWraps(CELL_WIDTH * i);
  }

  lemma SmallIsTrue(n: nat, cells: bool, px: int, py: int)
    requires n <= LONGEST && InFrame(px, py)
    ensures TrueAt(n, 1, cells, px, py)
  {
    forall k | 0 <= k < n
      ensures Over(Point(true, px, py), CellAt(1, k)) <==> Over(Point(false, px, py), CellAt(1, k))
    {
      SmallCell(k, px, py);
    }
    forall i, col, row | IsDot(n, i, col, row)
      ensures DotOver(Point(true, px, py), cells, 1, i, n, col, row) <==> DotOver(Point(false, px, py), cells, 1, i, n, col, row)
    {
      SmallDot(i, col, row, px, py);
    }
  }

  /** The next character is the one whose cell, and whose last column, come back to the left edge. */
  lemma BackAtTheEdge(longest: nat)
    requires longest == LONGEST
    ensures Over(Point(true, 0, 0), CellAt(1, longest))
    ensures Over(Point(true, 0, 0), DotAt(1, longest, 4, 0)) && !Over(Point(false, 0, 0), DotAt(1, longest, 4, 0))
  {
    CellXIs(1, longest);
    assert CellAt(1, longest) == Rect(0xFFFF_FFFC, 0, CELL_WIDTH, CELL_HEIGHT, 0);
    assert DotAt(1, longest, 4, 0) == Rect(0x1_0000_0000, 0, 1, 1, 0);
    PointIs(true, 0, 0, CellAt(1, longest));
    PointIs(true, 0, 0, DotAt(1, longest, 4, 0));
    PointIs(false, 0, 0, DotAt(1, longest, 4, 0));
    EdgeWraps();
  }

  lemma EdgeWraps()
    ensures Wrap(0xFFFF_FFFC) == -4 && Wrap(0x1_0000_0000) == 0
  {}

  lemma FirstDot()
    ensures Over(Point(false, 0, 0), DotAt(1, 0, 0, 0))
  {
    CellXIs(1, 0);
    PointIs(false, 0, 0, DotAt(1, 0, 0, 0));
  }

  lemma LaterCell(k: int)
    requires k >= 1
    ensures !Over(Point(false, 0, 0), CellAt(1, k))
  {
    CellXIs(1, k);
    PointIs(false, 0, 0, CellAt(1, k));
  }

  lemma LaterCells(n: int)
    ensures !CellOver(Point(false, 0, 0), 1, 1, n)
  {
    forall k | 1 <= k < n
      ensures !Over(Point(false, 0, 0), CellAt(1, k))
    {
      LaterCell(k);
    }
  }

  lemma LongerHidesTheFirstDot(n: nat)
    requires n > LONGEST
    ensures !DotOver(Point(true, 0, 0), true, 1, 0, n, 0, 0) && DotOver(Point(false, 0, 0), true, 1, 0, n, 0, 0)
  {
    var longest: nat := LONGEST;
    BackAtTheEdge(longest);
    FirstDot();
    LaterCells(n);
    assert 1 <= longest < n && Over(Point(true, 0, 0), CellAt(1, longest));
  }

  lemma LongerIsNot(n: nat, cells: bool)
    requires n > LONGEST
    ensures !TrueAt(n, 1, cells, 0, 0)
  {
    if cells {
      LongerHidesTheFirstDot(n);
      assert IsDot(n, 0, 0, 0);
    } else {
      var longest: nat := LONGEST;
      BackAtTheEdge(longest);
      assert IsDot(n, longest, 4, 0);
      assert DotOver(Point(true, 0, 0), false, 1, longest, n, 4, 0) && !DotOver(Point(false, 0, 0), false, 1, longest, n, 4, 0);
    }
  }

  /** At scale 1 a text is drawn as meant exactly up to some seven hundred million characters. */
  lemma SmallIsTrueIff(n: nat, cells: bool)
    ensures TrueToScale(n, 1, cells) <==> n <= LONGEST
  {
    if n <= LONGEST {
      forall px, py | InFrame(px, py)
        ensures TrueAt(n, 1, cells, px, py)
      {
        SmallIsTrue(n, cells, px, py);
      }
    } else {
      LongerIsNot(n, cells);
      assert InFrame(0, 0);
    }
  }

  /** Whole text and one line of cells fit 32 bits. */
  predicate TextInWords(n: nat, s: int) {
    s >= 1 && CELL_WIDTH * s * n < 0x8000_0000 && CELL_HEIGHT * s < 0x8000_0000
  }

  lemma CellsInWords(n: nat, s: int, i: nat)
    requires TextInWords(n, s) && i < n
    ensures 0 <= CellX(s, i) && CellX(s, i) + CELL_WIDTH * s < 0x8000_0000
  {
    CellXIs(s, i);
    var cell := CELL_WIDTH * s;
    MulMonotone(i + 1, n, cell);
    assert cell * i == i * cell && (i + 1) * cell == i * cell + cell && n * cell == cell * n;
  }

  lemma DotInWords(n: nat, s: int, i: nat, col: int, row: int)
    requires TextInWords(n, s) && IsDot(n, i, col, row)
    ensures InWords(DotAt(s, i, col, row)) && InWords(CellAt(s, i))
  {
    CellsInWords(n, s, i);
    MulMonotone(col, CELL_WIDTH, s);
    MulMonotone(row, CELL_HEIGHT, s);
    WordsStay(DotAt(s, i, col, row));
    WordsStay(CellAt(s, i));
  }

  lemma WordsStay(r: Rect)
    requires 0 <= r.x < 0x8000_0000 && 0 <= r.y < 0x8000_0000 && 0 <= r.w < 0x8000_0000 && 0 <= r.h < 0x8000_0000
    ensures InWords(r)
  {}

  /** A text that stays within 32 bits is true to scale. */
  lemma InWordsIsTrue(n: nat, s: int, cells: bool)
    requires TextInWords(n, s)
    ensures TrueToScale(n, s, cells)
  {
    forall i, col, row | IsDot(n, i, col, row)
      ensures InWords(DotAt(s, i, col, row)) && InWords(CellAt(s, i))
    {
      DotInWords(n, s, i, col, row);
    }
    forall i | 0 <= i < n
      ensures InWords(CellAt(s, i))
    {
      assert IsDot(n, i, 0, 0);
    }
    forall px, py | InFrame(px, py)
      ensures TrueAt(n, s, cells, px, py)
    {
      forall r: Rect | InWords(r)
        ensures Over(Point(true, px, py), r) <==> Over(Point(false, px, py), r)
      {
        PointIs(true, px, py, r);
        PointIs(false, px, py, r);
      }
    }
  }

  /**
   Text drawn at the origin of a blank frame at scale `s` shows the text drawn at
   scale 1 with every pixel blown up, if no coordinate leaves 32 bits.
   */
  lemma ScaledText(font: Font, text: seq<char>, fg: u16, bg: Option<u16>, s: int, blank: Image, small: Image, big: Image, x: int, y: int)
    requires TextInWords(|text|, s) && InFrame(x, y)
    requires forall p, q :: InFrame(p, q) ==> Pixel(blank, p, q) == Pixel(blank, 0, 0)
    requires Drawn(blank, TextRects(font, 0, 0, text, fg, bg, 1), small)
    requires Drawn(blank, TextRects(font, 0, 0, text, fg, bg, s), big)
    ensures InFrame(x / s, y / s) && Pixel(big, x, y) == Pixel(small, x / s, y / s)
  {
    MulMonotone(1, s, CELL_WIDTH * |text|);
    assert CELL_WIDTH * s * |text| == s * (CELL_WIDTH * |text|);
    InWordsIsTrue(|text|, s, bg.Some?);
    SmallIsTrueIff(|text|, bg.Some?);
    TrueIsEnlarged(font, text, fg, bg, s, blank, small, big);
  }

  /** A scale at which six times the scale is two, in 32 bits. */
  const TOO_LARGE := 0x2AAA_AAAB

  lemma TooLargeWraps(s: int, one: nat)
    requires s == TOO_LARGE && one == 1
    ensures Over(Point(true, 2, 0), DotAt(s, one, 0, 0)) && !Over(Point(false, 2, 0), DotAt(s, one, 0, 0))
  {
    CellXIs(s, one);
    assert DotAt(s, one, 0, 0) == Rect(0x1_0000_0002, 0, TOO_LARGE, TOO_LARGE, 0);
    PointIs(true, 2, 0, DotAt(s, one, 0, 0));
    PointIs(false, 2, 0, DotAt(s, one, 0, 0));
    TwoWraps();
  }

  lemma TwoWraps()
    ensures Wrap(0x1_0000_0002) == 2 && Wrap(TOO_LARGE) == TOO_LARGE
  {}

  /** At this scale two characters are not enlarged: the second is drawn two pixels along instead of out of sight. */
  lemma TooLargeIsNotEnlarged(cells: bool)
    ensures !Enlarges(2, TOO_LARGE, cells)
  {
    TooLargeIs(2, TOO_LARGE, 1, cells);
  }

  lemma TooLargeIs(n: nat, s: int, one: nat, cells: bool)
    requires n == 2 && s == TOO_LARGE && one == 1
    ensures !Enlarges(n, s, cells)
  {
    TooLargeWraps(s, one);
    assert IsDot(n, one, 0, 0) && DotOver(Point(true, 2, 0), cells, s, one, n, 0, 0) && !DotOver(Point(false, 2, 0), cells, s, one, n, 0, 0);
    assert InFrame(2, 0) && !TrueAt(n, s, cells, 2, 0);
    SmallIsTrueIff(n, cells);
    EnlargesIff(n, s, cells);
  }

  /** A scale whose cells leave 32 bits, and yet a character is enlarged. */
  lemma OneLargeCharacter(n: nat, s: int)
    requires n == 1 && s == 0x1000_0000
    ensures !TextInWords(n, s) && Enlarges(n, s, false)
  {
    forall px, py, i, col, row | InFrame(px, py) && IsDot(n, i, col, row)
      ensures Wrapped(DotAt(s, i, col, row)).Has(px, py) <==> DotAt(s, i, col, row).Has(px, py)
    {
      LargeDot(s, i, col, row, px, py);
    }
    WithoutBackground(n, s);
    SmallIsTrueIff(n, false);
    EnlargesIff(n, s, false);
  }

  lemma LargeDot(s: int, i: int, col: int, row: int, px: int, py: int)
    requires s == 0x1000_0000 && i == 0 && 0 <= col < GLYPH_WIDTH && 0 <= row < GLYPH_HEIGHT && InFrame(px, py)
    ensures Wrapped(DotAt(s, i, col, row)).Has(px, py) <==> DotAt(s, i, col, row).Has(px, py)
  {
    CellXIs(s, i);
    FarWraps(col * s);
    FarWraps(row * s);
    FarWraps(s);
  }

  /** The same seen on one picture: the large one has a dot where the small one has nothing. */
  lemma ScaledTextMayWrap(font: Font, text: seq<char>, fg: u16, blank: Image, small: Image, big: Image)
    requires |text| == 2 && Glyph(font, text[0]) == [0, 0, 0, 0, 0] && Bit(Glyph(font, text[1])[0], 0)
    requires Drawn(blank, TextRects(font, 0, 0, text, fg, None, 1), small)
    requires Drawn(blank, TextRects(font, 0, 0, text, fg, None, TOO_LARGE), big)
    ensures Pixel(big, 2, 0) == fg && Pixel(small, 2 / TOO_LARGE, 0 / TOO_LARGE) == Pixel(blank, 0, 0)
  {
    TooLargeWraps(TOO_LARGE, 1);
    assert LitDot(Point(true, 2, 0), false, font, text, TOO_LARGE, 0, 1, 0, 0);
    TextDrawn(font, text, fg, None, TOO_LARGE, blank, big, 2, 0);
    SmallCornerIsBlank(font, text);
    TextDrawn(font, text, fg, None, 1, blank, small, 0, 0);
  }

  lemma SmallCornerIsBlank(font: Font, text: seq<char>)
    requires |text| == 2 && Glyph(font, text[0]) == [0, 0, 0, 0, 0]
    ensures !TextOver(Point(true, 0, 0), false, font, text, 1, 0)
  {
    if k, col, row :| LitDot(Point(true, 0, 0), false, font, text, 1, 0, k, col, row) {
      NothingInTheCorner(font, text, 1, k, col, row);
    }
  }

  lemma NothingInTheCorner(font: Font, text: seq<char>, s: int, k: int, col: int, row: int)
    requires |text| == 2 && Glyph(font, text[0]) == [0, 0, 0, 0, 0] && s == 1
    ensures !LitDot(Point(true, 0, 0), false, font, text, s, 0, k, col, row)
  {
    if k == 0 {
      BlankHasNoDot(font, text[k], col, row);
    } else if 0 <= col < GLYPH_WIDTH && 0 <= row < GLYPH_HEIGHT && k == 1 {
      SecondIsElsewhere(s, k, col, row);
    }
  }

  lemma BlankHasNoDot(font: Font, ch: char, col: int, row: int)
    requires Glyph(font, ch) == [0, 0, 0, 0, 0]
    ensures !DotSet(font, ch, col, row)
  {
    if 0 <= col < GLYPH_WIDTH && 0 <= row < GLYPH_HEIGHT {
      OneBit(row, row);
    }
  }

  lemma SecondIsElsewhere(s: int, k: int, col: int, row: int)
    requires s == 1 && k == 1 && 0 <= col < GLYPH_WIDTH && 0 <= row < GLYPH_HEIGHT
    ensures !Over(Point(true, 0, 0), DotAt(s, k, col, row))
  {
    CellXIs(s, k);
    PointIs(true, 0, 0, DotAt(s, k, col, row));
    FarWraps(CELL_WIDTH + col);
  }
}
