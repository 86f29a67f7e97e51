/** The pixel renderer of the visual context carrier: text lines on a grid of 6 by 10 cells. */
module Raster {
  import opened JsText
  import opened Json
  import opened VisualText
  import opened Crc
  import opened Png
  import opened Arithmetic

  const CELL_WIDTH: int := 6
  const CELL_HEIGHT: int := 10
  const HEADER_ROWS: int := 3

  datatype Rgb = Rgb(red: Byte, green: Byte, blue: Byte)

  const BACKGROUND: Rgb := Rgb(250, 249, 246)
  const HEADER_INK: Rgb := Rgb(172, 66, 0)
  const BW_INK: Rgb := Rgb(17, 20, 24)
  const ROW6_INKS: seq<Rgb> :=
    [Rgb(17, 20, 24), Rgb(20, 54, 96), Rgb(103, 33, 33), Rgb(25, 78, 54), Rgb(76, 45, 105), Rgb(105, 66, 20)]

  datatype Palette = Bw | Row6

  function Ink(palette: Palette, logicalRow: nat): (r: Rgb)
    ensures r != BACKGROUND
  {
    if logicalRow < HEADER_ROWS then HEADER_INK
    else if palette.Bw? then BW_INK
    else ROW6_INKS[(logicalRow - HEADER_ROWS) % 6]
  }

  /** Header rows have their own ink; below, the first palette has one ink, and the second repeats six. */
  lemma InkExactly(palette: Palette, row: nat, other: nat)
    ensures row < 3 ==> Ink(palette, row) == Rgb(172, 66, 0)
    ensures row >= 3 && palette.Bw? ==> Ink(palette, row) == Rgb(17, 20, 24)
    ensures row >= 3 && other >= 3 && palette.Row6? ==>
      (Ink(palette, row) == Ink(palette, other) <==> (row - other) % 6 == 0)
    ensures Ink(Row6, 3) == Rgb(17, 20, 24) && Ink(Row6, 4) == Rgb(20, 54, 96) && Ink(Row6, 5) == Rgb(103, 33, 33)
    ensures Ink(Row6, 6) == Rgb(25, 78, 54) && Ink(Row6, 7) == Rgb(76, 45, 105) && Ink(Row6, 8) == Rgb(105, 66, 20)
    ensures BACKGROUND == Rgb(250, 249, 246)
  {
    var i, j := (row - HEADER_ROWS) % 6, (other - HEADER_ROWS) % 6;
    assert (row - other) % 6 == 0 <==> i == j;
  }

  // ----- The pixel buffer -----

  function Offset(width: nat, x: int, y: int): int { (y * width + x) * 3 }

  predicate InBounds(width: nat, height: nat, x: int, y: int) { 0 <= x < width && 0 <= y < height }

  /** The colour of a pixel of a buffer that holds three bytes a pixel, row by row. */
  function ColorIn(pixels: seq<Byte>, width: nat, x: int, y: int): Rgb
  {
    var at := Offset(width, x, y);
    if 0 <= at && at + 2 < |pixels| then Rgb(pixels[at], pixels[at + 1], pixels[at + 2]) else BACKGROUND
  }

  lemma OffsetBounds(width: nat, height: nat, x: int, y: int)
    requires InBounds(width, height, x, y)
    ensures 0 <= Offset(width, x, y) && Offset(width, x, y) + 2 < height * (width * 3)
  {
    RowsApart(width, y, height);
    RowsApart(width, -1, y);
    assert height * (width * 3) == height * width * 3;
  }

  /** Different pixels share no byte. */
  lemma OffsetApart(width: nat, height: nat, x: int, y: int, a: int, b: int)
    requires InBounds(width, height, x, y) && InBounds(width, height, a, b) && (x != a || y != b)
    ensures Offset(width, x, y) + 3 <= Offset(width, a, b) || Offset(width, a, b) + 3 <= Offset(width, x, y)
  {
    if y < b { RowsApart(width, y, b); }
    if b < y { RowsApart(width, b, y); }
  }

  /** `setPixel`. */
  method SetPixel(pixels: array<Byte>, width: nat, height: nat, x: int, y: int, ink: Rgb)
    requires pixels.Length == height * (width * 3)
    modifies pixels
    ensures forall a, b :: InBounds(width, height, a, b) ==>
      ColorIn(pixels[..], width, a, b) == if a == x && b == y then ink else old(ColorIn(pixels[..], width, a, b))
  {
    hide Offset;
    if x < 0 || y < 0 || x >= width || y >= height { return; }
    var offset := Offset(width, x, y);
    OffsetBounds(width, height, x, y);
    pixels[offset] := ink.red;
    pixels[offset + 1] := ink.green;
    pixels[offset + 2] := ink.blue;
    forall a, b | InBounds(width, height, a, b)
      ensures ColorIn(pixels[..], width, a, b)
           == if a == x && b == y then ink else old(ColorIn(pixels[..], width, a, b))
    {
      OffsetBounds(width, height, a, b);
      if a != x || b != y {
        OffsetApart(width, height, x, y, a, b);
      }
    }
  }

  // ----- Lines of glyphs -----

  type Glyph = seq<(int, int)>

  datatype Font = Font(glyphs: map<int, Glyph>, defaultCharacter: int)

  /** Every glyph fits its cell, and there is a fallback glyph. */
  ghost predicate IsCellFont(font: Font)
  {
    && font.defaultCharacter in font.glyphs
    && forall c, i :: c in font.glyphs && 0 <= i < |font.glyphs[c]| ==> InCell(font.glyphs[c][i])
  }

  predicate InCell(p: (int, int)) { 0 <= p.0 < CELL_WIDTH && 0 <= p.1 < CELL_HEIGHT }

  /** `font.glyphs.get(code point) ?? font.glyphs.get(font.defaultCharacter)`. */
  function GlyphOf(font: Font, character: Text): Glyph
    requires IsChar(character) && font.defaultCharacter in font.glyphs
  {
    var c := CodePoint(character);
    if c in font.glyphs then font.glyphs[c] else font.glyphs[font.defaultCharacter]
  }

  /** Whether a line of characters has ink at a position relative to its top left corner. */
  ghost predicate Inked(font: Font, characters: seq<Text>, x: int, y: int)
    requires font.defaultCharacter in font.glyphs && forall i :: 0 <= i < |characters| ==> IsChar(characters[i])
  {
    && 0 <= x && x / CELL_WIDTH < |characters|
    && var point := CodePoint(characters[x / CELL_WIDTH]);
       (x % CELL_WIDTH, y) in font.glyphs[if point in font.glyphs then point else font.defaultCharacter]
  }

  /** `drawLine`. */
  method DrawLine(pixels: array<Byte>, width: nat, height: nat, x: int, y: int, text: Text, ink: Rgb, font: Font)
    requires pixels.Length == height * (width * 3) && IsCellFont(font)
    modifies pixels
    ensures forall a, b :: InBounds(width, height, a, b) ==>
      ColorIn(pixels[..], width, a, b)
        == if Inked(font, Chars(text), a - x, b - y) then ink else old(ColorIn(pixels[..], width, a, b))
  {
    hide ColorIn, Chars, CodePoint;
    var characters := Chars(text);
    for column := 0 to |characters|
      invariant forall a, b :: InBounds(width, height, a, b) ==>
        ColorIn(pixels[..], width, a, b)
          == if Inked(font, characters[..column], a - x, b - y) then ink else old(ColorIn(pixels[..], width, a, b))
    {
      var glyph := GlyphOf(font, characters[column]);
      for k := 0 to |glyph|
        invariant forall a, b :: InBounds(width, height, a, b) ==>
          ColorIn(pixels[..], width, a, b)
            == if Inked(font, characters[..column], a - x, b - y) || InGlyph(glyph[..k], column, a - x, b - y) then ink
               else old(ColorIn(pixels[..], width, a, b))
      {
        var p := glyph[k];
        assert InCell(p);
        SetPixel(pixels, width, height, x + column * CELL_WIDTH + p.0, y + p.1, ink);
        forall a, b
          ensures InGlyph(glyph[..k + 1], column, a, b)
             <==> InGlyph(glyph[..k], column, a, b) || (a == column * CELL_WIDTH + p.0 && b == p.1)
        {
        }
      }
      forall a, b
        ensures Inked(font, characters[..column + 1], a, b)
           <==> Inked(font, characters[..column], a, b) || InGlyph(glyph[..|glyph|], column, a, b)
      {
        assert glyph[..|glyph|] == glyph;
      }
    }
    assert characters[..|characters|] == characters;
  }

  /** Whether part of the glyph in a column has ink at a position relative to its line. */
  ghost predicate InGlyph(glyph: Glyph, column: nat, x: int, y: int)
  {
    0 <= x && x / CELL_WIDTH == column && (x % CELL_WIDTH, y) in glyph
  }

  // ----- Pages -----

  datatype Page = Page(width: nat, height: nat, margin: nat, lineRepeat: nat, palette: Palette, font: Font,
    lines: seq<Text>)

  /** The colour of every pixel of a page whose first `rows` physical rows are drawn: the row, the line and the
      cell follow from the coordinates. */
  ghost function ColorOf(page: Page, rows: int, x: int, y: int): Rgb
    requires page.font.defaultCharacter in page.font.glyphs && page.lineRepeat > 0
  {
    var row := (y - page.margin) / CELL_HEIGHT;
    var line := row / page.lineRepeat;
    if 0 <= row < rows && line < |page.lines|
        && Inked(page.font, Chars(page.lines[line]), x - page.margin, (y - page.margin) % CELL_HEIGHT)
      then Ink(page.palette, line)
      else BACKGROUND
  }

  ghost function PageColor(page: Page, x: int, y: int): Rgb
    requires page.font.defaultCharacter in page.font.glyphs && page.lineRepeat > 0
  {
    ColorOf(page, |page.lines| * page.lineRepeat, x, y)
  }

  lemma InkInCell(font: Font, characters: seq<Text>, x: int, y: int)
    requires IsCellFont(font) && forall i :: 0 <= i < |characters| ==> IsChar(characters[i])
    ensures Inked(font, characters, x, y) ==> 0 <= y < CELL_HEIGHT
  {
    if Inked(font, characters, x, y) {
      var glyph := GlyphOf(font, characters[x / CELL_WIDTH]);
      var i :| 0 <= i < |glyph| && glyph[i] == (x % CELL_WIDTH, y);
      assert InCell(glyph[i]);
    }
  }

  lemma PhysicalRow(line: nat, lineRepeat: nat, repeat: nat)
    requires repeat < lineRepeat
    ensures (line * lineRepeat + repeat) / lineRepeat == line
  {
    var n := line * lineRepeat + repeat;
    var q := n / lineRepeat;
    assert n == q * lineRepeat + n % lineRepeat;
    if q < line { RowsApart(lineRepeat, q, line); }
    if line < q { RowsApart(lineRepeat, line, q); }
  }

  /** One physical row more. */
  lemma RowDrawn(page: Page, line: nat, repeat: nat, x: int, y: int)
    requires IsCellFont(page.font) && repeat < page.lineRepeat && line < |page.lines|
    ensures var row := line * page.lineRepeat + repeat;
      ColorOf(page, row + 1, x, y)
        == if Inked(page.font, Chars(page.lines[line]), x - page.margin, y - (page.margin + row * CELL_HEIGHT))
           then Ink(page.palette, line) else ColorOf(page, row, x, y)
  {
    hide Inked, Chars, IsCellFont;
    var row := line * page.lineRepeat + repeat;
    PhysicalRow(line, page.lineRepeat, repeat);
    InkInCell(page.font, Chars(page.lines[line]), x - page.margin, y - (page.margin + row * CELL_HEIGHT));
  }

  method FillBackground(pixels: array<Byte>)
    requires pixels.Length % 3 == 0
    modifies pixels
    ensures IsBackground(pixels[..])
  {
    var offset := 0;
    while offset < pixels.Length
      invariant 0 <= offset <= pixels.Length && offset % 3 == 0
      invariant forall k :: 0 <= k < offset ==> pixels[k] == Channel(k)
    {
      hide Channel;
      Channels(offset);
      pixels[offset] := BACKGROUND.red;
      pixels[offset + 1] := BACKGROUND.green;
      pixels[offset + 2] := BACKGROUND.blue;
      offset := offset + 3;
    }
  }

  lemma Channels(offset: int)
    requires offset % 3 == 0
    ensures Channel(offset) == BACKGROUND.red && Channel(offset + 1) == BACKGROUND.green
    ensures Channel(offset + 2) == BACKGROUND.blue
  {
  }

  ghost predicate IsBackground(pixels: seq<Byte>) { forall k :: 0 <= k < |pixels| ==> pixels[k] == Channel(k) }

  lemma BackgroundColor(pixels: seq<Byte>, width: nat, x: int, y: int)
    requires IsBackground(pixels)
    ensures ColorIn(pixels, width, x, y) == BACKGROUND
  {
    hide Offset;
    OffsetWhole(width, x, y);
    var at := Offset(width, x, y);
    assert 0 <= at && at + 2 < |pixels| ==>
      pixels[at] == Channel(at) && pixels[at + 1] == Channel(at + 1) && pixels[at + 2] == Channel(at + 2);
  }

  lemma WholePixels(width: nat, height: nat)
    ensures height * (width * 3) % 3 == 0
  {
    assert height * (width * 3) == height * width * 3;
  }

  lemma OffsetWhole(width: nat, x: int, y: int)
    ensures Offset(width, x, y) % 3 == 0
  {
  }

  function Channel(k: int): Byte
  {
    if k % 3 == 0 then BACKGROUND.red else if k % 3 == 1 then BACKGROUND.green else BACKGROUND.blue
  }

  /** The drawing part of `renderPage`. */
  method DrawPage(page: Page) returns (pixels: array<Byte>)
    requires IsCellFont(page.font) && page.lineRepeat > 0
    ensures fresh(pixels) && pixels.Length == page.height * (page.width * 3)
    ensures forall x, y :: InBounds(page.width, page.height, x, y) ==>
      ColorIn(pixels[..], page.width, x, y) == PageColor(page, x, y)
  {
    hide ColorIn, Inked, Chars;
    var width, height, n := page.width, page.height, page.lineRepeat;
    pixels := new Byte[height * (width * 3)](_ => 0);
    WholePixels(width, height);
    FillBackground(pixels);
    forall x, y ensures ColorIn(pixels[..], width, x, y) == BACKGROUND { BackgroundColor(pixels[..], width, x, y); }
    for line := 0 to |page.lines|
      invariant forall x, y :: InBounds(width, height, x, y) ==>
        ColorIn(pixels[..], width, x, y) == ColorOf(page, line * n, x, y)
    {
      var ink := Ink(page.palette, line);
      for repeat := 0 to n
        invariant forall x, y :: InBounds(width, height, x, y) ==>
          ColorIn(pixels[..], width, x, y) == ColorOf(page, line * n + repeat, x, y)
      {
        var row := line * n + repeat;
        DrawLine(pixels, width, height, page.margin, page.margin + row * CELL_HEIGHT, page.lines[line], ink, page.font);
        forall x, y | InBounds(width, height, x, y)
          ensures ColorIn(pixels[..], width, x, y) == ColorOf(page, line * n + (repeat + 1), x, y)
        {
          RowDrawn(page, line, repeat, x, y);
        }
      }
      assert line * n + n == (line + 1) * n;
    }
  }

  // ----- Every glyph is drawn whole, inside the margins -----

  /** The lines of a page fit the grid inside its margins. */
  ghost predicate FitsGrid(page: Page)
  {
    && page.lineRepeat > 0
    && 2 * page.margin + |page.lines| * page.lineRepeat * CELL_HEIGHT <= page.height
    && forall i :: 0 <= i < |page.lines| ==> 2 * page.margin + |Chars(page.lines[i])| * CELL_WIDTH <= page.width
  }

  predicate InsideMargins(page: Page, x: int, y: int)
  {
    page.margin <= x < page.width - page.margin && page.margin <= y < page.height - page.margin
  }

  /** Outside the margins a page is blank. */
  lemma MarginsBlank(page: Page, x: int, y: int)
    requires IsCellFont(page.font) && FitsGrid(page)
    ensures PageColor(page, x, y) != BACKGROUND ==> InsideMargins(page, x, y)
  {
  }

  /** The pixel of a cell: line, repeat and column choose the cell. */
  function CellX(page: Page, column: nat, p: (int, int)): int { page.margin + column * CELL_WIDTH + p.0 }

  function CellY(page: Page, line: nat, repeat: nat, p: (int, int)): int
  {
    page.margin + (line * page.lineRepeat + repeat) * CELL_HEIGHT + p.1
  }

  ghost predicate IsCell(page: Page, line: nat, repeat: nat, column: nat, p: (int, int))
  {
    line < |page.lines| && repeat < page.lineRepeat && column < |Chars(page.lines[line])| && InCell(p)
  }

  lemma RowsBelow(line: nat, lines: nat, lineRepeat: nat, repeat: nat)
    requires line < lines && repeat < lineRepeat
    ensures line * lineRepeat + repeat < lines * lineRepeat
  {
    RowsApart(lineRepeat, line, lines);
  }

  /** `setPixel` never clips: every pixel of every cell is inside the margins. */
  lemma NeverClips(page: Page, line: nat, repeat: nat, column: nat, p: (int, int))
    requires FitsGrid(page) && IsCell(page, line, repeat, column, p)
    ensures var x, y := CellX(page, column, p), CellY(page, line, repeat, p);
      InsideMargins(page, x, y) && InBounds(page.width, page.height, x, y)
  {
    hide Chars;
    RowsBelow(line, |page.lines|, page.lineRepeat, repeat);
  }

  /** Every cell shows exactly the glyph of its character, in the ink of its line: the glyph of its code point, or the
      default glyph where the font has none. */
  lemma CellShowsGlyph(page: Page, line: nat, repeat: nat, column: nat, p: (int, int))
    requires IsCellFont(page.font) && IsCell(page, line, repeat, column, p)
    ensures var font, point := page.font, CodePoint(Chars(page.lines[line])[column]);
      var color := PageColor(page, CellX(page, column, p), CellY(page, line, repeat, p));
      && color in {Ink(page.palette, line), BACKGROUND}
      && (point in font.glyphs ==> (color != BACKGROUND <==> p in font.glyphs[point]))
      && (point !in font.glyphs ==> (color != BACKGROUND <==> p in font.glyphs[font.defaultCharacter]))
  {
    hide Chars, IsCellFont, CodePoint, Ink;
    var row := line * page.lineRepeat + repeat;
    RowsBelow(line, |page.lines|, page.lineRepeat, repeat);
    PhysicalRow(line, page.lineRepeat, repeat);
    assert p == (p.0, p.1);
  }

  // ----- What a picture tells -----

  /** Two pages on one grid that look the same. */
  ghost predicate SamePicture(page: Page, other: Page)
    requires page.font.defaultCharacter in page.font.glyphs && page.lineRepeat > 0
  {
    && other == page.(lines := other.lines)
    && forall x, y :: InBounds(page.width, page.height, x, y) ==> PageColor(page, x, y) == PageColor(other, x, y)
  }

  ghost predicate SameShape(a: Glyph, b: Glyph) { forall p :: p in a <==> p in b }

  /** No two characters of the font look the same. */
  ghost predicate IsLegible(font: Font)
  {
    forall c, d :: c in font.glyphs && d in font.glyphs && SameShape(font.glyphs[c], font.glyphs[d]) ==> c == d
  }

  /** Pages on the same grid that look the same show the same glyph in every cell they share. */
  lemma SamePictureSameGlyphs(page: Page, other: Page, line: nat, column: nat)
    requires IsCellFont(page.font) && FitsGrid(page) && SamePicture(page, other)
    requires line < |page.lines| && line < |other.lines|
    requires column < |Chars(page.lines[line])| && column < |Chars(other.lines[line])|
    ensures SameShape(GlyphOf(page.font, Chars(page.lines[line])[column]),
                      GlyphOf(page.font, Chars(other.lines[line])[column]))
  {
    hide Chars, PageColor;
    var c, d := Chars(page.lines[line])[column], Chars(other.lines[line])[column];
    forall p | InCell(p) ensures p in GlyphOf(page.font, c) <==> p in GlyphOf(page.font, d) {
      NeverClips(page, line, 0, column, p);
      CellShowsGlyph(page, line, 0, column, p);
      CellShowsGlyph(other, line, 0, column, p);
    }
    GlyphInCell(page.font, c);
    GlyphInCell(page.font, d);
  }

  /** In a legible font the characters are the same, or are drawn as the default one. */
  lemma SamePictureSameCharacter(page: Page, other: Page, line: nat, column: nat)
    requires IsCellFont(page.font) && FitsGrid(page) && SamePicture(page, other) && IsLegible(page.font)
    requires line < |page.lines| && line < |other.lines|
    requires column < |Chars(page.lines[line])| && column < |Chars(other.lines[line])|
    ensures var c, d := Chars(page.lines[line])[column], Chars(other.lines[line])[column];
      var font, x, y := page.font, CodePoint(c), CodePoint(d);
      && (x in font.glyphs && y in font.glyphs ==> c == d)
      && (x in font.glyphs && y !in font.glyphs ==> x == font.defaultCharacter)
      && (x !in font.glyphs && y in font.glyphs ==> y == font.defaultCharacter)
  {
    hide Chars, PageColor, CodePoint, SameShape, SamePicture;
    SamePictureSameGlyphs(page, other, line, column);
    CodePointRoundTrip(Chars(page.lines[line])[column]);
    CodePointRoundTrip(Chars(other.lines[line])[column]);
  }

  /** A cell that only one of them has shows nothing. */
  lemma SamePictureBlank(page: Page, other: Page, line: nat, column: nat)
    requires IsCellFont(page.font) && FitsGrid(page) && SamePicture(page, other)
    requires line < |page.lines| && column < |Chars(page.lines[line])|
    requires line < |other.lines| ==> |Chars(other.lines[line])| <= column
    ensures var point := CodePoint(Chars(page.lines[line])[column]);
      page.font.glyphs[if point in page.font.glyphs then point else page.font.defaultCharacter] == []
  {
    hide Chars, Inked, CodePoint;
    var c := Chars(page.lines[line])[column];
    var glyph := GlyphOf(page.font, c);
    if |glyph| > 0 {
      var p := glyph[0];
      assert p in glyph;
      GlyphInCell(page.font, c);
      NeverClips(page, line, 0, column, p);
      CellShowsGlyph(page, line, 0, column, p);
      NoCell(other, line, column, p);
    }
  }

  lemma NoCell(page: Page, line: nat, column: nat, p: (int, int))
    requires page.font.defaultCharacter in page.font.glyphs && page.lineRepeat > 0 && InCell(p)
    requires line < |page.lines| ==> |Chars(page.lines[line])| <= column
    ensures PageColor(page, CellX(page, column, p), CellY(page, line, 0, p)) == BACKGROUND
  {
    hide Chars, CodePoint, GlyphOf;
    PhysicalRow(line, page.lineRepeat, 0);
  }

  lemma GlyphInCell(font: Font, c: Text)
    requires IsCellFont(font) && IsChar(c)
    ensures forall p :: p in GlyphOf(font, c) ==> InCell(p)
  {
    var glyph := GlyphOf(font, c);
    forall p | p in glyph ensures InCell(p) {
      var i :| 0 <= i < |glyph| && glyph[i] == p;
    }
  }

  /** `renderPage`: a reader of the file finds the colours of the page, pixel by pixel. */
  method RenderPage(checksums: Checksums, page: Page, deflate: seq<Byte> -> seq<Byte>,
      ghost inflate: seq<Byte> -> Option<seq<Byte>>) returns (r: Result<seq<Byte>>)
    requires checksums.Valid() && page.width < WORD_LIMIT && page.height < WORD_LIMIT
    requires IsCellFont(page.font) && page.lineRepeat > 0
    requires IsCodec(deflate, inflate)
    modifies checksums
    ensures checksums.Valid()
    ensures r.Ok? ==> Displays(ReadPng(r.value, inflate), page)
    ensures page.width <= 2048 && page.height <= 2048 ==> r.Ok?
  {
    hide PageColor, ColorIn, ReadPng;
    var pixels := DrawPage(page);
    r := EncodePng(checksums, page.width, page.height, pixels[..], deflate, inflate);
  }

  ghost predicate Displays(image: Option<Image>, page: Page)
    requires page.font.defaultCharacter in page.font.glyphs && page.lineRepeat > 0
  {
    && image.Some? && image.value.width == page.width && image.value.height == page.height
    && forall x, y :: InBounds(page.width, page.height, x, y) ==>
         ColorIn(image.value.pixels, page.width, x, y) == PageColor(page, x, y)
  }
}
