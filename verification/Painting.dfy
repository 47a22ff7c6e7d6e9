/** Pictures as lists of rectangles: what a drawing call means, whatever the frame held before. */
module Painting {
  import opened Bytes
  import opened Veils
  import opened Wrappers

  const WIDTH := 160
  const HEIGHT := 128
  const BYTES := 40960

  type Image = b: seq<byte> | |b| == BYTES witness Repeat(0, BYTES)

  predicate InFrame(x: int, y: int) {
    0 <= x < WIDTH && 0 <= y < HEIGHT
  }

  /** A pixel, stored high byte first. */
  function Pixel(img: Image, x: int, y: int): u16
    requires InFrame(x, y)
  {
    var hi: int := img[2 * (y * WIDTH + x)];
    0x100 * hi + img[2 * (y * WIDTH + x) + 1]
  }

  /** The unbounded rectangle `x <= px < x + w`, `y <= py < y + h`. */
  datatype Rect = Rect(x: int, y: int, w: int, h: int, color: u16) {
    predicate Has(px: int, py: int) {
      x <= px < x + w && y <= py < y + h
    }
  }

  /** What the last rectangle over a point makes of it. */
  function Seen(rects: seq<Rect>, px: int, py: int): Option<u16> {
    if rects == [] then None
    else if rects[|rects| - 1].Has(px, py) then Some(rects[|rects| - 1].color)
    else Seen(rects[..|rects| - 1], px, py)
  }

  ghost predicate PixelsPainted(x: (Image, seq<Rect>, Image)) {
    forall px, py :: InFrame(px, py) ==> Pixel(x.2, px, py) == Seen(x.1, px, py).GetOr(Pixel(x.0, px, py))
  }

  /** `after` is `before` with the rectangles painted over it, and nothing else changed: see `PaintedIs`. */
  ghost predicate Painted(before: Image, rects: seq<Rect>, after: Image) {
    Veil(PixelsPainted, (before, rects, after), |rects| + 3)
  }

  lemma PaintedIs(before: Image, rects: seq<Rect>, after: Image)
    ensures Painted(before, rects, after) <==>
      forall x, y :: InFrame(x, y) ==> Pixel(after, x, y) == Seen(rects, x, y).GetOr(Pixel(before, x, y))
  {
    Lift(PixelsPainted, (before, rects, after), |rects| + 3);
  }

  lemma {:induction false} SeenJoin(a: seq<Rect>, b: seq<Rect>, px: int, py: int)
    ensures Seen(a + b, px, py) == if Seen(b, px, py).Some? then Seen(b, px, py) else Seen(a, px, py)
  {
    if b == [] {
      assert a + b == a;
    } else {
      SeenJoin(a, b[..|b| - 1], px, py);
      assert (a + b)[..|a + b| - 1] == a + b[..|b| - 1];
    }
  }

  /** Painting in two goes. */
  lemma PaintedJoin(before: Image, a: seq<Rect>, between: Image, b: seq<Rect>, after: Image)
    requires Painted(before, a, between) && Painted(between, b, after)
    ensures Painted(before, a + b, after)
  {
    PaintedIs(before, a, between);
    PaintedIs(between, b, after);
    PaintedIs(before, a + b, after);
    forall x, y | InFrame(x, y)
      ensures Pixel(after, x, y) == Seen(a + b, x, y).GetOr(Pixel(before, x, y))
    {
      SeenJoin(a, b, x, y);
    }
  }

  lemma PaintedNothing(img: Image)
    ensures Painted(img, [], img)
  {
    PaintedIs(img, [], img);
  }

  /** The bytes of a frame are determined by its pixels, so equal painting gives equal frames. */
  lemma PixelsDetermine(a: Image, b: Image)
    requires forall x, y :: InFrame(x, y) ==> Pixel(a, x, y) == Pixel(b, x, y)
    ensures a == b
  {
    forall k | 0 <= k < BYTES
      ensures a[k] == b[k]
    {
      var p := k / 2;
      SamePair(a, b, p % WIDTH, p / WIDTH);
    }
  }

  lemma SamePair(a: Image, b: Image, x: int, y: int)
    requires InFrame(x, y) && Pixel(a, x, y) == Pixel(b, x, y)
    ensures a[2 * (y * WIDTH + x)] == b[2 * (y * WIDTH + x)]
    ensures a[2 * (y * WIDTH + x) + 1] == b[2 * (y * WIDTH + x) + 1]
  {
    SameBytes(a[2 * (y * WIDTH + x)], a[2 * (y * WIDTH + x) + 1], b[2 * (y * WIDTH + x)], b[2 * (y * WIDTH + x) + 1]);
  }

  lemma SameBytes(h: byte, l: byte, h': byte, l': byte)
    requires 0x100 * (h as int) + l == 0x100 * (h' as int) + l'
    ensures h == h' && l == l'
  {}

  /** Two calls that paint the same rectangles on the same frame leave the same bytes. */
  lemma SamePainting(before: Image, rects: seq<Rect>, a: Image, b: Image)
    requires Painted(before, rects, a) && Painted(before, rects, b)
    ensures a == b
  {
    PaintedIs(before, rects, a);
    PaintedIs(before, rects, b);
    PixelsDetermine(a, b);
  }

  // --- thirty-two bits -----------------------------------------------------

  type i32 = x: int | -0x8000_0000 <= x < 0x8000_0000

  /** Coordinates are 32-bit words, and their sums and products wrap. */
  function Wrap(x: int): i32 {
    (x + 0x8000_0000) % 0x1_0000_0000 - 0x8000_0000
  }

  lemma WrapTurns(x: int, k: int)
    ensures Wrap(x + k * 0x1_0000_0000) == Wrap(x)
  {}

  lemma WrapOnce(a: int, b: int)
    ensures Wrap(a + Wrap(b)) == Wrap(a + b) == Wrap(Wrap(a) + b)
  {
    var k, l := (a + 0x8000_0000) / 0x1_0000_0000, (b + 0x8000_0000) / 0x1_0000_0000;
    assert Wrap(a) == a - k * 0x1_0000_0000 && Wrap(b) == b - l * 0x1_0000_0000;
    WrapTurns(a + b, -k);
    WrapTurns(a + b, -l);
  }

  /** The rectangle that is drawn where `r` is meant. */
  function Wrapped(r: Rect): Rect {
    Rect(Wrap(r.x), Wrap(r.y), Wrap(r.w), Wrap(r.h), r.color)
  }

  function WrappedAll(rects: seq<Rect>): seq<Rect> {
    if rects == [] then [] else WrappedAll(rects[..|rects| - 1]) + [Wrapped(rects[|rects| - 1])]
  }

  lemma {:induction false} WrappedJoin(a: seq<Rect>, b: seq<Rect>)
    ensures WrappedAll(a + b) == WrappedAll(a) + WrappedAll(b)
  {
    if b == [] {
      assert a + b == a;
    } else {
      WrappedJoin(a, b[..|b| - 1]);
      assert (a + b)[..|a + b| - 1] == a + b[..|b| - 1];
    }
  }

  lemma WrappedOne(r: Rect)
    ensures WrappedAll([r]) == [Wrapped(r)] && WrappedAll([]) == []
  {
    assert [r][..0] == [];
  }

  predicate InWords(r: Rect) {
    Wrapped(r) == r
  }

  /** Where nothing leaves 32 bits, what is meant is what is drawn. */
  lemma {:induction false} InWordsDrawnAsMeant(rects: seq<Rect>)
    requires forall r :: r in rects ==> InWords(r)
    ensures WrappedAll(rects) == rects
  {
    if rects != [] {
      var n := |rects| - 1;
      InWordsDrawnAsMeant(rects[..n]);
      assert InWords(rects[n]) && rects == rects[..n] + [rects[n]];
    }
  }

  /** `after` is what drawing the rectangles on `before` leaves, coordinates wrapping. */
  ghost predicate Drawn(before: Image, rects: seq<Rect>, after: Image) {
    Veil(WrappedPainted, (before, rects, after), |rects| + 3)
  }

  ghost predicate WrappedPainted(x: (Image, seq<Rect>, Image)) {
    Painted(x.0, WrappedAll(x.1), x.2)
  }

  lemma DrawnIs(before: Image, rects: seq<Rect>, after: Image)
    ensures Drawn(before, rects, after) <==> Painted(before, WrappedAll(rects), after)
  {
    Lift(WrappedPainted, (before, rects, after), |rects| + 3);
  }

  lemma DrawnNothing(img: Image)
    ensures Drawn(img, [], img)
  {
    DrawnIs(img, [], img);
    PaintedNothing(img);
  }

  lemma DrawnOne(before: Image, r: Rect, after: Image)
    requires Painted(before, [Wrapped(r)], after)
    ensures Drawn(before, [r], after)
  {
    DrawnIs(before, [r], after);
    WrappedOne(r);
  }

  lemma DrawnJoin(before: Image, a: seq<Rect>, between: Image, b: seq<Rect>, after: Image)
    requires Drawn(before, a, between) && Drawn(between, b, after)
    ensures Drawn(before, a + b, after)
  {
    DrawnIs(before, a, between);
    DrawnIs(between, b, after);
    DrawnIs(before, a + b, after);
    WrappedJoin(a, b);
    PaintedJoin(before, WrappedAll(a), between, WrappedAll(b), after);
  }

  /** Two calls that mean the same rectangles leave the same bytes of equal frames. */
  lemma SameDrawing(before: Image, rects: seq<Rect>, a: Image, b: Image)
    requires Drawn(before, rects, a) && Drawn(before, rects, b)
    ensures a == b
  {
    DrawnIs(before, rects, a);
    DrawnIs(before, rects, b);
    SamePainting(before, WrappedAll(rects), a, b);
  }

  // --- bitmaps -------------------------------------------------------------

  const POWERS: seq<int> := [1, 2, 4, 8, 16, 32, 64, 128]

  /** Bit `k` of a byte, the lowest first. */
  predicate Bit(b: byte, k: nat)
    requires k < 8
  {
    Veil(BitOf, (b, k), k + 3)
  }

  predicate BitOf(x: (byte, nat)) {
    x.1 < 8 && x.0 / POWERS[x.1] % 2 == 1
  }

  lemma BitIs(b: byte, k: nat)
    requires k < 8
    ensures Bit(b, k) <==> b / POWERS[k] % 2 == 1
  {
    Lift(BitOf, (b, k), k + 3);
  }

  /** The lowest bit tells odd from even, and the next ones are those of the half. */
  lemma BitsFollow(b: byte, k: nat)
    requires k < 8
    ensures Bit(b, k) <==> if k == 0 then b % 2 == 1 else Bit(b / 2, k - 1)
  {
    BitIs(b, k);
    if k > 0 {
      BitIs(b / 2, k - 1);
    }
  }

  /** Bytes per row, rounded toward zero and read as unsigned. */
  function Stride(w: i32): (stride: nat)
    ensures w <= 8 * stride
  {
    var v: int := Wrap(w + 7);
    var s := if v >= 0 then v / 8 else -(-v / 8);
    if s >= 0 then s else 0x1_0000_0000 + s
  }

  /** As many bytes as a row needs, unless the sum leaves 32 bits. */
  lemma StrideIs(w: i32)
    requires 0 <= w <= 0x7FFF_FFF8
    ensures w <= 8 * Stride(w) < w + 8
  {}

  /** Where a bitmap goes, and how. */
  datatype Place = Place(x: int, y: int, w: i32, color: u16, flip: bool, scale: int)

  function Dot(p: Place, row: int, col: int): Rect {
    Rect(if p.flip then p.x + p.w - 1 - col else p.x + col * p.scale, p.y + row * p.scale, p.scale, p.scale, p.color)
  }

  /** The dots of the first `n` columns of a row. */
  function RowRects(p: Place, row: int, bytes: seq<byte>, n: nat): seq<Rect>
    requires n <= 8 * |bytes|
  {
    if n == 0 then []
    else
      RowRects(p, row, bytes, n - 1) + if Bit(bytes[(n - 1) / 8], 7 - (n - 1) % 8) then [Dot(p, row, n - 1)] else []
  }

  function RowBytes(rows: seq<byte>, stride: nat, row: nat): (r: Option<seq<byte>>)
    ensures r.Some? ==> |r.value| == stride
  {
    RowEnd(stride, row);
    if (row + 1) * stride <= |rows| then Some(rows[row * stride..(row + 1) * stride]) else None
  }

  lemma RowEnd(stride: nat, row: nat)
    ensures 0 <= row * stride && (row + 1) * stride == row * stride + stride
  {}

  /** The rows from `row` on, as far as there are bytes for them. */
  function BitmapRects(p: Place, h: int, rows: seq<byte>, row: nat): seq<Rect>
    decreases h - row
  {
    if row >= h then []
    else
      match RowBytes(rows, Stride(p.w), row)
      case None => []
      case Some(bytes) =>
        RowRects(p, row, bytes, if p.w < 0 then 0 else p.w) + BitmapRects(p, h, rows, row + 1)
  }

  /** A bit of the bitmap that is set, in a row there are bytes for. */
  predicate BitSet(w: i32, h: int, rows: seq<byte>, row: int, col: int) {
    && 0 <= row < h && 0 <= col < w
    && RowBytes(rows, Stride(w), row).Some?
    && Bit(RowBytes(rows, Stride(w), row).value[col / 8], 7 - col % 8)
  }

  /** The row and the column that a point falls on. */
  function RowUnder(p: Place, py: int): int
    requires p.scale >= 1
  {
    (py - p.y) / p.scale
  }

  function ColumnUnder(p: Place, px: int): int
    requires p.scale >= 1
  {
    if p.flip then p.x + p.w - 1 - px else (px - p.x) / p.scale
  }

  lemma BelowFloor(x: int, s: int, a: int)
    requires s >= 1
    ensures s * a <= x <==> a <= x / s
  {
    var q, r := x / s, x % s;
    assert x == s * q + r;
    if a <= q {
      assert s * a <= s * q;
    } else {
      assert s * a >= s * (q + 1) == s * q + s;
    }
  }

  lemma OnDot(p: Place, row: int, col: int, px: int, py: int)
    requires p.scale >= 1 && (p.flip ==> p.scale == 1)
    ensures Dot(p, row, col).Has(px, py) <==> row == RowUnder(p, py) && col == ColumnUnder(p, px)
  {
    OnCell(py - p.y, p.scale, row);
    OnCell(px - p.x, p.scale, col);
  }

  lemma OnCell(d: int, s: int, k: int)
    requires s >= 1
    ensures k * s <= d < k * s + s <==> k == d / s
  {
    BelowFloor(d, s, k);
    BelowFloor(d, s, k + 1);
    assert s * (k + 1) == k * s + s && s * k == k * s;
  }

  /** The last bit of a row, if the point falls on it. */
  lemma RowStep(p: Place, row: int, bytes: seq<byte>, n: nat, px: int, py: int, at: int, col: int)
    requires 0 < n <= 8 * |bytes| && p.scale >= 1 && (p.flip ==> p.scale == 1)
    requires at == RowUnder(p, py) && col == ColumnUnder(p, px)
    ensures Seen(RowRects(p, row, bytes, n), px, py) ==
      if row == at && col == n - 1 && Bit(bytes[col / 8], 7 - col % 8) then Some(p.color)
      else Seen(RowRects(p, row, bytes, n - 1), px, py)
  {
    OnDot(p, row, n - 1, px, py);
    var dots := RowRects(p, row, bytes, n - 1);
    assert (dots + [Dot(p, row, n - 1)])[..|dots|] == dots;
    assert dots + [] == dots;
  }

  /** A row shows its colour where its bit is set; `(at, col)` is where the point falls. */
  lemma {:induction false} RowShows(p: Place, row: int, bytes: seq<byte>, n: nat, px: int, py: int, at: int, col: int)
    requires n <= 8 * |bytes| && p.scale >= 1 && (p.flip ==> p.scale == 1)
    requires at == RowUnder(p, py) && col == ColumnUnder(p, px)
    ensures Seen(RowRects(p, row, bytes, n), px, py) ==
      if row == at && 0 <= col < n && Bit(bytes[col / 8], 7 - col % 8) then Some(p.color) else None
  {
    if n > 0 {
      RowShows(p, row, bytes, n - 1, px, py, at, col);
      RowStep(p, row, bytes, n, px, py, at, col);
    }
  }

  lemma EarlierRows(rows: seq<byte>, stride: nat, row: nat, later: nat)
    requires row <= later && RowBytes(rows, stride, later).Some?
    ensures RowBytes(rows, stride, row).Some?
  {
    RowEnd(stride, later);
    MulMonotone(row + 1, later + 1, stride);
  }

  lemma MulMonotone(a: nat, b: nat, c: nat)
    requires a <= b
    ensures a * c <= b * c
  {
    assert b * c == a * c + (b - a) * c;
  }

  lemma {:induction false} RowsShow(p: Place, h: int, rows: seq<byte>, row: nat, px: int, py: int, at: int, col: int)
    requires p.scale >= 1 && (p.flip ==> p.scale == 1)
    requires at == RowUnder(p, py) && col == ColumnUnder(p, px)
    ensures Seen(BitmapRects(p, h, rows, row), px, py) ==
      if BitSet(p.w, h, rows, at, col) && row <= at then Some(p.color) else None
    decreases h - row
  {
    if row < h {
      var bytes := RowBytes(rows, Stride(p.w), row);
      if bytes.Some? {
        RowsShow(p, h, rows, row + 1, px, py, at, col);
        RowJoins(p, h, rows, row, bytes.value, px, py, at, col);
      } else if row <= at && RowBytes(rows, Stride(p.w), at).Some? {
        EarlierRows(rows, Stride(p.w), row, at);
      }
    }
  }

  lemma RowJoins(p: Place, h: int, rows: seq<byte>, row: nat, bytes: seq<byte>, px: int, py: int, at: int, col: int)
    requires p.scale >= 1 && (p.flip ==> p.scale == 1) && row < h && RowBytes(rows, Stride(p.w), row) == Some(bytes)
    requires at == RowUnder(p, py) && col == ColumnUnder(p, px)
    ensures Seen(BitmapRects(p, h, rows, row), px, py) ==
      if Seen(BitmapRects(p, h, rows, row + 1), px, py).Some? then Seen(BitmapRects(p, h, rows, row + 1), px, py)
      else if row == at && BitSet(p.w, h, rows, at, col) then Some(p.color) else None
  {
    var n := if p.w < 0 then 0 else p.w;
    RowShows(p, row, bytes, n, px, py, at, col);
    SeenJoin(RowRects(p, row, bytes, n), BitmapRects(p, h, rows, row + 1), px, py);
  }

  /** A bitmap gives a point its colour exactly if the bit under it is set, in a row there are bytes for. */
  lemma BitmapShows(p: Place, h: int, rows: seq<byte>, px: int, py: int)
    requires p.scale >= 1 && (p.flip ==> p.scale == 1)
    ensures Seen(BitmapRects(p, h, rows, 0), px, py) ==
      if BitSet(p.w, h, rows, RowUnder(p, py), ColumnUnder(p, px)) then Some(p.color) else None
  {
    RowsShow(p, h, rows, 0, px, py, RowUnder(p, py), ColumnUnder(p, px));
  }

  /** A mirrored bitmap shows at each place what the plain one shows at the opposite place. */
  lemma MirroredShows(p: Place, h: int, rows: seq<byte>, i: int, py: int)
    requires p.scale == 1
    ensures Seen(BitmapRects(p.(flip := true), h, rows, 0), p.x + i, py) == Seen(BitmapRects(p.(flip := false), h, rows, 0), p.x + p.w - 1 - i, py)
  {
    BitmapShows(p.(flip := true), h, rows, p.x + i, py);
    BitmapShows(p.(flip := false), h, rows, p.x + p.w - 1 - i, py);
  }

  // --- text ----------------------------------------------------------------

  const CELL_WIDTH := 6
  const CELL_HEIGHT := 8
  const GLYPH_WIDTH := 5
  const GLYPH_HEIGHT := 7
  const GLYPHS := 95

  type Font = f: seq<seq<byte>> | |f| == GLYPHS && forall i :: 0 <= i < GLYPHS ==> |f[i]| == GLYPH_WIDTH
    witness seq(GLYPHS, _ => [0, 0, 0, 0, 0])

  /** Characters outside ASCII draw as a question mark. */
  function Glyph(font: Font, ch: char): (g: seq<byte>)
    ensures |g| == GLYPH_WIDTH
  {
    font[if 32 <= ch as int <= 126 then ch as int - 32 else '?' as int - 32]
  }

  /** The font has the printable ASCII characters in order, from the space on. */
  lemma GlyphIs(font: Font, ch: char, k: nat)
    requires k < 95
    ensures ch as int == 32 + k ==> Glyph(font, ch) == font[k]
    ensures ch as int < 32 || ch as int > 126 ==> Glyph(font, ch) == Glyph(font, '?') == font[31]
  {}

  /** The dots of the first `n` rows of a glyph column. */
  function ColumnRects(x: int, y: int, bits: byte, fg: u16, s: int, n: nat): seq<Rect>
    requires n <= GLYPH_HEIGHT
  {
    if n == 0 then []
    else ColumnRects(x, y, bits, fg, s, n - 1) + if Bit(bits, n - 1) then [Rect(x, y + (n - 1) * s, s, s, fg)] else []
  }

  /** The dots of the first `n` columns of a glyph. */
  function GlyphRects(x: int, y: int, glyph: seq<byte>, fg: u16, s: int, n: nat): seq<Rect>
    requires n <= |glyph|
  {
    if n == 0 then []
    else GlyphRects(x, y, glyph, fg, s, n - 1) + ColumnRects(x + (n - 1) * s, y, glyph[n - 1], fg, s, GLYPH_HEIGHT)
  }

  function CellRects(x: int, y: int, bg: Option<u16>, s: int): seq<Rect> {
    if bg.Some? then [Rect(x, y, CELL_WIDTH * s, CELL_HEIGHT * s, bg.value)] else []
  }

  function CharRects(x: int, y: int, glyph: seq<byte>, fg: u16, bg: Option<u16>, s: int): seq<Rect>
    requires |glyph| == GLYPH_WIDTH
  {
    CellRects(x, y, bg, s) + GlyphRects(x, y, glyph, fg, s, GLYPH_WIDTH)
  }

  /** A column shows its colour where its bit is set; `row` is where the point falls. */
  lemma {:induction false} ColumnShows(x: int, y: int, bits: byte, fg: u16, s: int, n: nat, px: int, py: int, row: int)
    requires n <= GLYPH_HEIGHT && s >= 1 && row == (py - y) / s
    ensures Seen(ColumnRects(x, y, bits, fg, s, n), px, py) ==
      if x <= px < x + s && 0 <= row < n && Bit(bits, row) then Some(fg) else None
  {
    if n > 0 {
      ColumnShows(x, y, bits, fg, s, n - 1, px, py, row);
      OnCell(py - y, s, n - 1);
      var dots, last := ColumnRects(x, y, bits, fg, s, n - 1), Rect(x, y + (n - 1) * s, s, s, fg);
      assert (dots + [last])[..|dots|] == dots;
      assert dots + [] == dots;
    }
  }

  lemma {:induction false} GlyphShows(x: int, y: int, glyph: seq<byte>, fg: u16, s: int, n: nat, px: int, py: int, col: int, row: int)
    requires n <= |glyph| && s >= 1 && col == (px - x) / s && row == (py - y) / s
    ensures Seen(GlyphRects(x, y, glyph, fg, s, n), px, py) ==
      if 0 <= col < n && 0 <= row < 7 && Bit(glyph[col], row) then Some(fg) else None
  {
    if n > 0 {
      GlyphShows(x, y, glyph, fg, s, n - 1, px, py, col, row);
      GlyphStep(x, y, glyph, fg, s, n, px, py, col, row);
    }
  }

  /** The last column, if the point falls on it. */
  lemma GlyphStep(x: int, y: int, glyph: seq<byte>, fg: u16, s: int, n: nat, px: int, py: int, col: int, row: int)
    requires 0 < n <= |glyph| && s >= 1 && col == (px - x) / s && row == (py - y) / s
    ensures Seen(GlyphRects(x, y, glyph, fg, s, n), px, py) ==
      if col == n - 1 && 0 <= row < 7 && Bit(glyph[n - 1], row) then Some(fg)
      else Seen(GlyphRects(x, y, glyph, fg, s, n - 1), px, py)
  {
    OnCell(px - x, s, n - 1);
    ColumnShows(x + (n - 1) * s, y, glyph[n - 1], fg, s, GLYPH_HEIGHT, px, py, row);
    SeenJoin(GlyphRects(x, y, glyph, fg, s, n - 1), ColumnRects(x + (n - 1) * s, y, glyph[n - 1], fg, s, GLYPH_HEIGHT), px, py);
  }

  /**
   A character gives a point its colour where the bit under it is set, in five columns
   of seven rows, lowest bit on top; its background fills the rest of a cell of six by eight.
   */
  lemma CharShows(x: int, y: int, glyph: seq<byte>, fg: u16, bg: Option<u16>, s: int, px: int, py: int)
    requires |glyph| == 5 && s >= 1
    ensures var (col, row) := ((px - x) / s, (py - y) / s);
            Seen(CharRects(x, y, glyph, fg, bg, s), px, py) ==
              if 0 <= col < 5 && 0 <= row < 7 && Bit(glyph[col], row) then Some(fg)
              else if 0 <= col < 6 && 0 <= row < 8 then bg else None
  {
    GlyphShows(x, y, glyph, fg, s, 5, px, py, (px - x) / s, (py - y) / s);
    BelowFloor(px - x, s, 0);
    BelowFloor(px - x, s, 6);
    BelowFloor(py - y, s, 0);
    BelowFloor(py - y, s, 8);
    SeenJoin(CellRects(x, y, bg, s), GlyphRects(x, y, glyph, fg, s, 5), px, py);
  }

  function TextRects(font: Font, x: int, y: int, text: seq<char>, fg: u16, bg: Option<u16>, s: int): seq<Rect>
    decreases |text|
  {
    if text == [] then []
    else CharRects(x, y, Glyph(font, text[0]), fg, bg, s) + TextRects(font, x + CELL_WIDTH * s, y, text[1..], fg, bg, s)
  }
}
