/** The frame: bytes that every drawing call paints on, and the flag that says whether to send them. */
module Framebuffer {
  import opened Bytes
  import opened Wrappers
  import opened Painting
  import opened Veils

  function SatAdd(a: i32, b: i32): i32 {
    if a + b > 0x7FFF_FFFF then 0x7FFF_FFFF else if a + b < -0x8000_0000 then -0x8000_0000 else a + b
  }

  function Max(a: int, b: int): int {
    if a < b then b else a
  }

  function Min(a: int, b: int): int {
    if a < b then a else b
  }

  function Plotted(img: Image, x: int, y: int, c: u16): Image
    requires InFrame(x, y)
  {
    img[2 * (y * WIDTH + x) := c / 0x100][2 * (y * WIDTH + x) + 1 := c % 0x100]
  }

  lemma PlottedIs(img: Image, x: int, y: int, c: u16)
    requires InFrame(x, y)
    ensures forall px, py :: InFrame(px, py) ==>
      Pixel(Plotted(img, x, y, c), px, py) == if px == x && py == y then c else Pixel(img, px, py)
  {
    forall px, py | InFrame(px, py)
      ensures Pixel(Plotted(img, x, y, c), px, py) == if px == x && py == y then c else Pixel(img, px, py)
    {
      if px != x || py != y {
        assert py * WIDTH + px != y * WIDTH + x;
      }
    }
  }

  /** Part of a fill: what is done of rows `y0..row`, and of row `row` up to `i`. */
  ghost predicate FilledTo(before: Image, x0: int, x1: int, y0: int, row: int, i: int, c: u16, after: Image) {
    forall px, py :: InFrame(px, py) ==>
      Pixel(after, px, py) ==
        if x0 <= px < x1 && y0 <= py && (py < row || (py == row && px < i)) then c else Pixel(before, px, py)
  }

  lemma OneRect(before: Image, r: Rect, after: Image)
    requires forall px, py :: InFrame(px, py) ==>
      Pixel(after, px, py) == if r.Has(px, py) then r.color else Pixel(before, px, py)
    ensures Painted(before, [r], after)
  {
    PaintedIs(before, [r], after);
    assert [r][..0] == [];
    forall px, py | InFrame(px, py)
      ensures Pixel(after, px, py) == Seen([r], px, py).GetOr(Pixel(before, px, py))
    {
      assert Seen([r], px, py) == if r.Has(px, py) then Some(r.color) else None;
    }
  }

  class Framebuffer {
    const data: array<byte>
    /** Set by every call that draws. */
    var dirty: bool
    /** The bytes at the last `TakeDirty`. */
    ghost var sent: Image

    /** A clean frame holds what was last sent. */
    ghost predicate Valid()
      reads this, data
    {
      data.Length == BYTES && (!dirty ==> data[..] == sent)
    }

    ghost function Frame(): Image
      requires data.Length == BYTES
      reads data
    {
      data[..]
    }

    /** `rects` were painted on the frame, which is dirty if it was or if anything changed. */
    twostate predicate Paints(rects: seq<Rect>)
      requires data.Length == BYTES
      reads this, data
    {
      Valid() && sent == old(sent) && (old(dirty) ==> dirty) && Painted(old(Frame()), rects, Frame())
    }

    /** The same, for rectangles whose coordinates wrap. */
    twostate predicate Draws(rects: seq<Rect>)
      requires data.Length == BYTES
      reads this, data
    {
      Valid() && sent == old(sent) && (old(dirty) ==> dirty) && Drawn(old(Frame()), rects, Frame())
    }

    /** All black and clean. */
    constructor ()
      ensures Valid() && !dirty && fresh(data) && Frame() == sent == Repeat(0, BYTES)
    {
      data := new byte[BYTES](_ => 0);
      dirty := false;
      sent := Repeat(0, BYTES);
      new;
      assert data[..] == Repeat(0, BYTES);
    }

    method LoadRaw(bytes: Image)
      requires Valid()
      modifies this`dirty, data
      ensures Valid() && dirty && Frame() == bytes
    {
      forall i | 0 <= i < BYTES {
        data[i] := bytes[i];
      }
      dirty := true;
      assert data[..] == bytes;
    }

    /** Whether anything was drawn since the last call. */
    method TakeDirty() returns (was: bool)
      requires Valid()
      modifies this
      ensures Valid() && was == old(dirty) && !dirty && sent == Frame() == old(Frame())
      ensures !was ==> sent == old(sent)
    {
      was := dirty;
      dirty := false;
      sent := data[..];
    }

    /** Writes one pixel of the frame. */
    method Plot(x: int, y: int, c: u16)
      requires data.Length == BYTES && InFrame(x, y)
      modifies data
      ensures Frame() == Plotted(old(Frame()), x, y, c)
    {
      var i := 2 * (y * WIDTH + x);
      data[i] := c / 0x100;
      data[i + 1] := c % 0x100;
    }

    method Set(x: i32, y: i32, c: u16)
      requires Valid()
      modifies this`dirty, data
      ensures Paints([Rect(x, y, 1, 1, c)])
      ensures dirty == (old(dirty) || InFrame(x, y))
    {
      ghost var before := Frame();
      if 0 <= x < WIDTH && 0 <= y < HEIGHT {
        dirty := true;
        PlottedIs(before, x, y, c);
        Plot(x, y, c);
      }
      OneRect(before, Rect(x, y, 1, 1, c), Frame());
    }

    method Get(x: i32, y: i32) returns (c: Option<u16>)
      requires Valid()
      ensures c == if InFrame(x, y) then Some(Pixel(Frame(), x, y)) else None
    {
      if 0 <= x < WIDTH && 0 <= y < HEIGHT {
        var i := 2 * (y * WIDTH + x);
        var hi: int := data[i];
        c := Some(0x100 * hi + data[i + 1]);
      } else {
        c := None;
      }
    }

    /** Fills part of one row. */
    method FillRow(ghost before: Image, y0: int, row: int, x0: int, x1: int, c: u16)
      requires data.Length == BYTES && 0 <= x0 < x1 <= WIDTH && 0 <= y0 <= row < HEIGHT
      requires FilledTo(before, x0, x1, y0, row, x0, c, Frame())
      modifies data
      ensures FilledTo(before, x0, x1, y0, row + 1, x0, c, Frame())
    {
      for i := x0 to x1
        invariant FilledTo(before, x0, x1, y0, row, i, c, Frame())
      {
        PlottedIs(Frame(), i, row, c);
        Plot(i, row, c);
      }
    }

    /** Paints exactly the pixels of the frame inside the unbounded rectangle, for every argument. */
    method FillRect(x: i32, y: i32, w: i32, h: i32, c: u16)
      requires Valid()
      modifies this`dirty, data
      ensures Paints([Rect(x, y, w, h, c)])
      ensures dirty == (old(dirty) || exists px, py :: InFrame(px, py) && Rect(x, y, w, h, c).Has(px, py))
    {
      ghost var before := Frame();
      ghost var r := Rect(x, y, w, h, c);
      var x0, y0 := Max(x, 0), Max(y, 0);
      var x1, y1 := Min(SatAdd(x, w), WIDTH), Min(SatAdd(y, h), HEIGHT);
      if x0 >= x1 || y0 >= y1 {
        OneRect(before, r, Frame());
        return;
      }
      assert InFrame(x0, y0) && r.Has(x0, y0);
      dirty := true;
      for row := y0 to y1
        invariant dirty && FilledTo(before, x0, x1, y0, row, x0, c, Frame())
      {
        FillRow(before, y0, row, x0, x1, c);
      }
      OneRect(before, r, Frame());
    }

    /** One colour everywhere, whether the two bytes of the colour are the same or not. */
    method Clear(c: u16)
      requires Valid()
      modifies this`dirty, data
      ensures Paints([Rect(0, 0, WIDTH, HEIGHT, c)]) && dirty
    {
      dirty := true;
      ghost var before, r := Frame(), Rect(0, 0, WIDTH, HEIGHT, c);
      var hi, lo := c / 0x100, c % 0x100;
      if hi == lo {
        forall i | 0 <= i < BYTES {
          data[i] := hi;
        }
        OneRect(before, r, Frame());
        return;
      }
      for p := 0 to WIDTH * HEIGHT
        invariant dirty
        invariant forall k :: 0 <= k < p ==> data[2 * k] == hi && data[2 * k + 1] == lo
      {
        data[2 * p] := hi;
        data[2 * p + 1] := lo;
      }
      OneRect(before, r, Frame());
    }

    /** The set bits of one row, pixel by pixel. */
    method DrawRow(p: Place, row: nat, bytes: seq<byte>)
      requires Valid() && p.scale == 1 && 0 <= p.w <= 8 * |bytes|
      modifies this`dirty, data
      ensures Draws(RowRects(p, row, bytes, p.w))
    {
      ghost var before := Frame();
      DrawnNothing(before);
      for col := 0 to p.w
        invariant Valid() && sent == old(sent) && (old(dirty) ==> dirty)
        invariant Drawn(before, RowRects(p, row, bytes, col), Frame())
      {
        if Bit(bytes[col / 8], 7 - col % 8) {
          ghost var mid := Frame();
          SetDot(p, row, col);
          DrawnJoin(before, RowRects(p, row, bytes, col), mid, [Dot(p, row, col)], Frame());
        } else {
          assert RowRects(p, row, bytes, col) + [] == RowRects(p, row, bytes, col);
        }
      }
    }

    method SetDot(p: Place, row: nat, col: nat)
      requires Valid() && p.scale == 1
      modifies this`dirty, data
      ensures Draws([Dot(p, row, col)])
    {
      ghost var before := Frame();
      Set(if p.flip then Wrap(p.x + p.w - 1 - col) else Wrap(p.x + col), Wrap(p.y + row), p.color);
      assert Wrapped(Dot(p, row, col)) == Rect(Wrap(Dot(p, row, col).x), Wrap(p.y + row), 1, 1, p.color);
      DrawnOne(before, Dot(p, row, col), Frame());
    }

    /** The set bits of one row, as blocks. */
    method DrawRowScaled(p: Place, row: nat, bytes: seq<byte>)
      requires Valid() && !p.flip && 0 <= p.w <= 8 * |bytes| && Wrap(p.scale) == p.scale
      modifies this`dirty, data
      ensures Draws(RowRects(p, row, bytes, p.w))
    {
      ghost var before := Frame();
      DrawnNothing(before);
      for col := 0 to p.w
        invariant Valid() && sent == old(sent) && (old(dirty) ==> dirty)
        invariant Drawn(before, RowRects(p, row, bytes, col), Frame())
      {
        if Bit(bytes[col / 8], 7 - col % 8) {
          ghost var mid := Frame();
          FillDot(p, row, col);
          DrawnJoin(before, RowRects(p, row, bytes, col), mid, [Dot(p, row, col)], Frame());
        } else {
          assert RowRects(p, row, bytes, col) + [] == RowRects(p, row, bytes, col);
        }
      }
    }

    method FillDot(p: Place, row: nat, col: nat)
      requires Valid() && !p.flip && Wrap(p.scale) == p.scale
      modifies this`dirty, data
      ensures Draws([Dot(p, row, col)])
    {
      ghost var before := Frame();
      WrapOnce(p.x, col * p.scale);
      WrapOnce(p.y, row * p.scale);
      FillRect(Wrap(p.x + Wrap(col * p.scale)), Wrap(p.y + Wrap(row * p.scale)), p.scale, p.scale, p.color);
      DrawnOne(before, Dot(p, row, col), Frame());
    }

    /** Draws what there are rows for; a bitmap cut short draws its first rows. */
    method DrawBitmap(x: i32, y: i32, w: i32, h: i32, rows: seq<byte>, color: u16, flip: bool)
      requires Valid()
      modifies this`dirty, data
      ensures Draws(BitmapRects(Place(x, y, w, color, flip, 1), h, rows, 0))
    {
      ghost var before := Frame();
      DrawnNothing(before);
      var p := Place(x, y, w, color, flip, 1);
      var stride := Stride(w);
      ghost var done := [];
      StartBitmap(p, h, rows);
      for row := 0 to Max(h, 0)
        invariant Valid() && sent == old(sent) && (old(dirty) ==> dirty)
        invariant Drawn(before, done, Frame())
        invariant OnBitmap(p, h, rows, row, done)
      {
        var bytes := RowBytes(rows, stride, row);
        if bytes.None? {
          EndBitmap(p, h, rows, row, done);
          return;
        }
        ghost var mid := Frame();
        if w > 0 {
          DrawRow(p, row, bytes.value);
        } else {
          DrawnNothing(Frame());
        }
        ghost var here := RowRects(p, row, bytes.value, if w < 0 then 0 else w);
        DrawnJoin(before, done, mid, here, Frame());
        NextRow(p, h, rows, row, done);
        done := done + here;
      }
      EndBitmap(p, h, rows, Max(h, 0), done);
    }

    method DrawBitmapScaled(x: i32, y: i32, w: i32, h: i32, rows: seq<byte>, color: u16, scale: i32)
      requires Valid()
      modifies this`dirty, data
      ensures Draws(BitmapRects(Place(x, y, w, color, false, scale), h, rows, 0))
    {
      ghost var before := Frame();
      DrawnNothing(before);
      var p := Place(x, y, w, color, false, scale);
      var stride := Stride(w);
      ghost var done := [];
      StartBitmap(p, h, rows);
      for row := 0 to Max(h, 0)
        invariant Valid() && sent == old(sent) && (old(dirty) ==> dirty)
        invariant Drawn(before, done, Frame())
        invariant OnBitmap(p, h, rows, row, done)
      {
        var bytes := RowBytes(rows, stride, row);
        if bytes.None? {
          EndBitmap(p, h, rows, row, done);
          return;
        }
        ghost var mid := Frame();
        if w > 0 {
          DrawRowScaled(p, row, bytes.value);
        } else {
          DrawnNothing(Frame());
        }
        ghost var here := RowRects(p, row, bytes.value, if w < 0 then 0 else w);
        DrawnJoin(before, done, mid, here, Frame());
        NextRow(p, h, rows, row, done);
        done := done + here;
      }
      EndBitmap(p, h, rows, Max(h, 0), done);
    }

    /** A dot meant at `(x, y)`. */
    method DrawSquare(ghost x: int, ghost y: int, wx: i32, wy: i32, fg: u16, s: i32)
      requires Valid() && wx == Wrap(x) && wy == Wrap(y)
      modifies this`dirty, data
      ensures Draws([Rect(x, y, s, s, fg)])
    {
      ghost var before := Frame();
      if s == 1 {
        Set(wx, wy, fg);
      } else {
        FillRect(wx, wy, s, s, fg);
      }
      DrawnOne(before, Rect(x, y, s, s, fg), Frame());
    }

    /** A dot of a glyph, `row` dots below `y`. */
    method DrawDot(ghost x: int, y: i32, row: nat, wx: i32, fg: u16, s: i32)
      requires Valid() && wx == Wrap(x)
      modifies this`dirty, data
      ensures Draws([Rect(x, y + row * s, s, s, fg)])
    {
      WrapOnce(y, row * s);
      DrawSquare(x, y + row * s, wx, Wrap(y + Wrap(row * s)), fg, s);
    }

    /** The dots of one glyph column, meant at `x`. */
    method DrawColumn(ghost x: int, wx: i32, y: i32, bits: byte, fg: u16, s: i32)
      requires Valid() && s >= 1 && wx == Wrap(x)
      modifies this`dirty, data
      ensures Draws(ColumnRects(x, y, bits, fg, s, GLYPH_HEIGHT))
    {
      ghost var before := Frame();
      DrawnNothing(before);
      for row := 0 to GLYPH_HEIGHT
        invariant Valid() && sent == old(sent) && (old(dirty) ==> dirty)
        invariant Drawn(before, ColumnRects(x, y, bits, fg, s, row), Frame())
      {
        if Bit(bits, row) {
          ghost var mid := Frame();
          DrawDot(x, y, row, wx, fg, s);
          DrawnJoin(before, ColumnRects(x, y, bits, fg, s, row), mid, [Rect(x, y + row * s, s, s, fg)], Frame());
        } else {
          assert ColumnRects(x, y, bits, fg, s, row) + [] == ColumnRects(x, y, bits, fg, s, row);
        }
      }
    }

    /** The dots of a glyph, meant at `x`. */
    method DrawGlyph(ghost x: int, wx: i32, y: i32, glyph: seq<byte>, fg: u16, s: i32)
      requires Valid() && |glyph| == GLYPH_WIDTH && s >= 1 && wx == Wrap(x)
      modifies this`dirty, data
      ensures Draws(GlyphRects(x, y, glyph, fg, s, GLYPH_WIDTH))
    {
      ghost var before := Frame();
      DrawnNothing(before);
      for col := 0 to GLYPH_WIDTH
        invariant Valid() && sent == old(sent) && (old(dirty) ==> dirty)
        invariant Drawn(before, GlyphRects(x, y, glyph, fg, s, col), Frame())
      {
        ghost var mid := Frame();
        WrapOnce(x, col * s);
        WrapOnce(wx, col * s);
        DrawColumn(x + col * s, Wrap(wx + Wrap(col * s)), y, glyph[col], fg, s);
        DrawnJoin(before, GlyphRects(x, y, glyph, fg, s, col), mid, ColumnRects(x + col * s, y, glyph[col], fg, s, GLYPH_HEIGHT), Frame());
      }
    }

    /** One character, meant at `meant`; the cell is painted first if there is a background. Returns the advance. */
    method DrawChar(font: Font, ghost meant: int, x: i32, y: i32, ch: char, fg: u16, bg: Option<u16>, scale: i32) returns (advance: i32)
      requires Valid() && x == Wrap(meant)
      modifies this`dirty, data
      ensures Draws(CharRects(meant, y, Glyph(font, ch), fg, bg, Max(scale, 1)))
      ensures advance == Wrap(CELL_WIDTH * Max(scale, 1))
    {
      var s := Max(scale, 1);
      ghost var before := Frame();
      DrawnNothing(before);
      if bg.Some? {
        FillRect(x, y, Wrap(CELL_WIDTH * s), Wrap(CELL_HEIGHT * s), bg.value);
        DrawnOne(before, Rect(meant, y, CELL_WIDTH * s, CELL_HEIGHT * s, bg.value), Frame());
      }
      ghost var mid := Frame();
      DrawGlyph(meant, x, y, Glyph(font, ch), fg, s);
      DrawnJoin(before, CellRects(meant, y, bg, s), mid, GlyphRects(meant, y, Glyph(font, ch), fg, s, GLYPH_WIDTH), Frame());
      return Wrap(CELL_WIDTH * s);
    }

    /** One character of a string; returns where the next one goes. */
    method DrawNext(font: Font, ghost meant: int, x: i32, y: i32, ch: char, fg: u16, bg: Option<u16>, scale: i32) returns (next: i32)
      requires Valid() && x == Wrap(meant)
      modifies this`dirty, data
      ensures Draws(CharRects(meant, y, Glyph(font, ch), fg, bg, Max(scale, 1)))
      ensures next == Wrap(meant + CELL_WIDTH * Max(scale, 1))
    {
      var advance := DrawChar(font, meant, x, y, ch, fg, bg, scale);
      WrapBoth(meant, CELL_WIDTH * Max(scale, 1));
      return Wrap(x + advance);
    }

    /** A string, character by character. Returns the width drawn. */
    method DrawTextScaled(font: Font, x: i32, y: i32, text: seq<char>, fg: u16, bg: Option<u16>, scale: i32) returns (width: i32)
      requires Valid()
      modifies this`dirty, data
      ensures Draws(TextRects(font, x, y, text, fg, bg, Max(scale, 1)))
      ensures width == Wrap(CELL_WIDTH * Max(scale, 1) * |text|)
    {
      ghost var before, line := Frame(), Line(font, x, y, text, fg, bg, Max(scale, 1));
      DrawnNothing(before);
      var cx := x;
      ghost var meant: int, done := x, [];
      StartLine(line);
      for i := 0 to |text|
        invariant Valid() && sent == old(sent) && (old(dirty) ==> dirty)
        invariant cx == Wrap(meant) && Drawn(before, done, Frame())
        invariant OnLine(line, i, meant, done)
      {
        ghost var mid := Frame();
        cx := DrawNext(font, meant, cx, y, text[i], fg, bg, scale);
        DrawnJoin(before, done, mid, line.Char(i, meant), Frame());
        NextChar(line, i, meant, done);
        done, meant := done + line.Char(i, meant), meant + CELL_WIDTH * line.s;
      }
      EndLine(line, meant, done);
      return Wrap(cx - x);
    }
  }

  predicate AtRow(a: (Place, int, seq<byte>, nat, seq<Rect>)) {
    a.4 + BitmapRects(a.0, a.1, a.2, a.3) == BitmapRects(a.0, a.1, a.2, 0)
  }

  /** `done` are the rows of a bitmap up to `row`. */
  predicate OnBitmap(p: Place, h: int, rows: seq<byte>, row: nat, done: seq<Rect>) {
    Veil(AtRow, (p, h, rows, row, done), row + 3)
  }

  lemma OnBitmapIs(p: Place, h: int, rows: seq<byte>, row: nat, done: seq<Rect>)
    ensures OnBitmap(p, h, rows, row, done) <==> AtRow((p, h, rows, row, done))
  {
    Lift(AtRow, (p, h, rows, row, done), row + 3);
  }

  lemma StartBitmap(p: Place, h: int, rows: seq<byte>)
    ensures OnBitmap(p, h, rows, 0, [])
  {
    OnBitmapIs(p, h, rows, 0, []);
    assert [] + BitmapRects(p, h, rows, 0) == BitmapRects(p, h, rows, 0);
  }

  lemma EndBitmap(p: Place, h: int, rows: seq<byte>, row: nat, done: seq<Rect>)
    requires OnBitmap(p, h, rows, row, done) && (row >= h || RowBytes(rows, Stride(p.w), row).None?)
    ensures done == BitmapRects(p, h, rows, 0)
  {
    OnBitmapIs(p, h, rows, row, done);
    assert done + [] == done;
  }

  /** One more row of a bitmap. */
  lemma NextRow(p: Place, h: int, rows: seq<byte>, row: nat, done: seq<Rect>)
    requires OnBitmap(p, h, rows, row, done) && row < h && RowBytes(rows, Stride(p.w), row).Some?
    ensures OnBitmap(p, h, rows, row + 1, done + RowRects(p, row, RowBytes(rows, Stride(p.w), row).value, if p.w < 0 then 0 else p.w))
  {
    var here := RowRects(p, row, RowBytes(rows, Stride(p.w), row).value, if p.w < 0 then 0 else p.w);
    OnBitmapIs(p, h, rows, row, done);
    OnBitmapIs(p, h, rows, row + 1, done + here);
    Regroup(done, here, BitmapRects(p, h, rows, row + 1));
  }

  /** A line of text, as it is meant. */
  datatype Line = Line(font: Font, x: int, y: int, text: seq<char>, fg: u16, bg: Option<u16>, s: int) {
    function Rects(): seq<Rect> {
      TextRects(font, x, y, text, fg, bg, s)
    }

    function Char(i: nat, meant: int): seq<Rect>
      requires i < |text|
    {
      CharRects(meant, y, Glyph(font, text[i]), fg, bg, s)
    }
  }

  predicate AtChar(a: (Line, nat, int, seq<Rect>)) {
    var (line, i, meant, done) := a;
    && i <= |line.text| && meant == line.x + CELL_WIDTH * line.s * i
    && done + TextRects(line.font, meant, line.y, line.text[i..], line.fg, line.bg, line.s) == line.Rects()
  }

  /** `done` are the characters up to `i`, and the next one goes to `meant`. */
  predicate OnLine(line: Line, i: nat, meant: int, done: seq<Rect>) {
    Veil(AtChar, (line, i, meant, done), i + 3)
  }

  lemma OnLineIs(line: Line, i: nat, meant: int, done: seq<Rect>)
    ensures OnLine(line, i, meant, done) <==> AtChar((line, i, meant, done))
  {
    Lift(AtChar, (line, i, meant, done), i + 3);
  }

  lemma StartLine(line: Line)
    ensures OnLine(line, 0, line.x, [])
  {
    OnLineIs(line, 0, line.x, []);
    assert line.text[0..] == line.text && [] + line.Rects() == line.Rects();
  }

  lemma EndLine(line: Line, meant: int, done: seq<Rect>)
    requires OnLine(line, |line.text|, meant, done)
    ensures done == line.Rects() && Wrap(Wrap(meant) - line.x) == Wrap(CELL_WIDTH * line.s * |line.text|)
  {
    OnLineIs(line, |line.text|, meant, done);
    assert done + [] == done;
    WrapBack(line.x, meant);
  }

  /** One more character of a line. */
  lemma NextChar(line: Line, i: nat, meant: int, done: seq<Rect>)
    requires i < |line.text| && OnLine(line, i, meant, done)
    ensures OnLine(line, i + 1, meant + CELL_WIDTH * line.s, done + line.Char(i, meant))
  {
    var here, next := line.Char(i, meant), meant + CELL_WIDTH * line.s;
    OnLineIs(line, i, meant, done);
    OnLineIs(line, i + 1, next, done + here);
    assert line.text[i..][0] == line.text[i] && line.text[i..][1..] == line.text[i + 1..];
    Regroup(done, here, TextRects(line.font, next, line.y, line.text[i + 1..], line.fg, line.bg, line.s));
    Advance(line.s, i);
  }

  lemma WrapBoth(a: int, b: int)
    ensures Wrap(Wrap(a) + Wrap(b)) == Wrap(a + b)
  {
    WrapOnce(Wrap(a), b);
    WrapOnce(a, b);
  }

  lemma WrapBack(x: int, there: int)
    ensures Wrap(Wrap(there) - x) == Wrap(there - x)
  {}

  lemma Regroup(a: seq<Rect>, b: seq<Rect>, c: seq<Rect>)
    ensures a + (b + c) == (a + b) + c
  {}

  lemma Advance(s: int, i: nat)
    ensures CELL_WIDTH * s * (i + 1) == CELL_WIDTH * s * i + CELL_WIDTH * s
  {}

  /**
   The plain bitmap and the enlarged one at scale 1, each drawn on its own frame:
   from equal frames they leave equal frames, for all arguments.
   */
  method ScaleOneIsPlain(plain: Framebuffer, enlarged: Framebuffer, x: i32, y: i32, w: i32, h: i32, rows: seq<byte>, color: u16)
    requires plain.Valid() && enlarged.Valid() && plain != enlarged && plain.data != enlarged.data
    requires plain.Frame() == enlarged.Frame()
    modifies plain`dirty, plain.data, enlarged`dirty, enlarged.data
    ensures plain.Valid() && enlarged.Valid() && plain.Frame() == enlarged.Frame()
  {
    ghost var before := plain.Frame();
    plain.DrawBitmap(x, y, w, h, rows, color, false);
    enlarged.DrawBitmapScaled(x, y, w, h, rows, color, 1);
    SameDrawing(before, BitmapRects(Place(x, y, w, color, false, 1), h, rows, 0), plain.Frame(), enlarged.Frame());
  }
}
