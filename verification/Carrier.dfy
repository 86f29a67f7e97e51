/** `createVisualContextCarrier`: the layout, the pages and what the pages promise together. */
module Carrier {
  import opened JsText
  import opened Sorting
  import opened Json
  import opened CanonicalJson
  import opened VisualText
  import opened Wrapping
  import opened WrapText
  import opened Crc
  import opened Png
  import opened Raster
  import opened Arithmetic

  // ----- Layout -----

  datatype Options = Options(width: Option<int>, height: Option<int>, margin: Option<int>, lineRepeat: Option<int>,
    maxPages: Option<int>, palette: Palette)

  datatype Layout = Layout(width: nat, height: nat, margin: nat, lineRepeat: nat, maxPages: nat, columns: int,
    rows: int)

  /** `integerOption` on integers. */
  function IntegerOption(value: Option<int>, fallback: int, minimum: int, maximum: int): Result<int>
  {
    var resolved := if value.Some? then value.value else fallback;
    if minimum <= resolved <= maximum then Ok(resolved) else Throws
  }

  function Plan(o: Options): Result<Layout>
  {
    var width := IntegerOption(o.width, 1568, 300, 2048);
    var height := IntegerOption(o.height, 1568, 200, 2048);
    var margin := IntegerOption(o.margin, 4, 0, 32);
    var lineRepeat := IntegerOption(o.lineRepeat, 2, 1, 4);
    var maxPages := IntegerOption(o.maxPages, 16, 1, 32);
    if width.Throws? || height.Throws? || margin.Throws? || lineRepeat.Throws? || maxPages.Throws? then Throws
    else
      var columns := (width.value - margin.value * 2) / CELL_WIDTH;
      var physicalRows := (height.value - margin.value * 2) / CELL_HEIGHT;
      var rows := physicalRows / lineRepeat.value - HEADER_ROWS;
      if columns < 24 || rows < 1 then Throws
      else Ok(Layout(width.value, height.value, margin.value, lineRepeat.value, maxPages.value, columns, rows))
  }

  /** The largest grid: header and content rows fit the height, columns fit the width, and one more does not. */
  lemma PlanFills(o: Options)
    requires Plan(o).Ok?
    ensures var l := Plan(o).value;
      && 24 <= l.columns && 1 <= l.rows && 0 < l.lineRepeat && l.width <= 2048 && l.height <= 2048
      && 2 * l.margin + l.columns * CELL_WIDTH <= l.width < 2 * l.margin + (l.columns + 1) * CELL_WIDTH
      && 2 * l.margin + (HEADER_ROWS + l.rows) * l.lineRepeat * CELL_HEIGHT <= l.height
      && l.height < 2 * l.margin + (HEADER_ROWS + l.rows + 1) * l.lineRepeat * CELL_HEIGHT
  {
    var l := Plan(o).value;
    var physicalRows := (l.height - l.margin * 2) / CELL_HEIGHT;
    assert l.rows + HEADER_ROWS == physicalRows / l.lineRepeat;
  }

  function Or(value: Option<int>, fallback: int): int { if value.Some? then value.value else fallback }

  lemma QuotientAtLeast(a: nat, r: int, k: nat)
    requires r > 0
    ensures a / r >= k <==> a >= k * r
  {
    if a / r < k { RowsApart(r, a / r, k); }
    if k < a / r { RowsApart(r, k, a / r); }
  }

  /** Each option, or its default, has its own range; besides, 24 columns and one row under the header must fit. */
  lemma PlanExactly(o: Options)
    ensures var width, height, margin := Or(o.width, 1568), Or(o.height, 1568), Or(o.margin, 4);
      var lineRepeat, maxPages := Or(o.lineRepeat, 2), Or(o.maxPages, 16);
      && (Plan(o).Ok? <==>
            && 300 <= width <= 2048 && 200 <= height <= 2048 && 0 <= margin <= 32
            && 1 <= lineRepeat <= 4 && 1 <= maxPages <= 32
            && 2 * margin + 24 * 6 <= width && 2 * margin + (3 + 1) * lineRepeat * 10 <= height)
      && (Plan(o).Ok? ==>
            var l := Plan(o).value;
            && l.width == width && l.height == height && l.margin == margin
            && l.lineRepeat == lineRepeat && l.maxPages == maxPages)
  {
    var height, margin, lineRepeat := Or(o.height, 1568), Or(o.margin, 4), Or(o.lineRepeat, 2);
    if lineRepeat > 0 && margin * 2 <= height { QuotientAtLeast((height - margin * 2) / 10, lineRepeat, 4); }
  }

  // ----- Pages of rows -----

  function PageRows<T>(lines: seq<T>, rows: int): (r: seq<seq<T>>)
    requires rows > 0
    ensures |r| > 0
    decreases |lines|
  {
    if |lines| <= rows then [lines] else [lines[..rows]] + PageRows(lines[rows..], rows)
  }

  function Joined<T>(pages: seq<seq<T>>): seq<T>
  {
    if |pages| == 0 then [] else pages[0] + Joined(pages[1..])
  }

  function PageCount(lines: nat, rows: int): nat
    requires rows > 0
  {
    if lines == 0 then 1 else (lines + rows - 1) / rows
  }

  lemma QuotientNext(n: nat, d: nat)
    requires d > 0
    ensures (n + d) / d == n / d + 1
  {
    var p, q := n / d, (n + d) / d;
    if q < p + 1 { RowsApart(d, q, p + 1); }
    if p + 1 < q { RowsApart(d, p + 1, q); }
  }

  lemma CountStep(lines: nat, rows: int)
    requires rows > 0 && lines > rows
    ensures PageCount(lines, rows) == 1 + PageCount(lines - rows, rows) > 1
  {
    QuotientNext(lines - 1, rows);
    QuotientNext(lines - rows - 1, rows);
  }

  lemma CountOne(lines: nat, rows: int)
    requires rows > 0 && lines <= rows
    ensures PageCount(lines, rows) == 1
  {
    if lines > 0 { QuotientNext(lines - 1, rows); }
  }

  /** The pages hold the rows in order; none is empty, and all but the last are full. */
  lemma {:induction false} PagesPartition<T>(lines: seq<T>, rows: int)
    requires rows > 0
    ensures var pages := PageRows(lines, rows);
      && |pages| == PageCount(|lines|, rows) && Joined(pages) == lines
      && (forall i :: 0 <= i < |pages| - 1 ==> |pages[i]| == rows)
      && |pages[|pages| - 1]| <= rows && (|lines| > 0 ==> |pages[|pages| - 1]| > 0)
    decreases |lines|
  {
    var pages := PageRows(lines, rows);
    if |lines| <= rows {
      CountOne(|lines|, rows);
      assert Joined(pages) == lines + Joined(pages[1..]) && pages[1..] == [];
    } else {
      var rest := PageRows(lines[rows..], rows);
      PagesPartition(lines[rows..], rows);
      CountStep(|lines|, rows);
      assert pages[1..] == rest && lines == lines[..rows] + lines[rows..];
    }
  }

  lemma CountLeast(lines: nat, rows: int, pages: nat)
    requires rows > 0 && pages > 0 && lines <= pages * rows
    ensures PageCount(lines, rows) <= pages
  {
    if lines > 0 {
      var q := (lines + rows - 1) / rows;
      if q > pages { RowsApart(rows, pages, q); }
    }
  }

  /** No layout of the text that keeps its newlines and fits the columns needs fewer pages. */
  lemma PageCountLeast(encoded: Text, columns: int, rows: int, layout: seq<seq<seq<Atom>>>, pages: nat)
    requires rows > 0 && pages > 0 && IsLayout(layout, Split(encoded), columns)
    requires RowCount(layout) <= pages * rows
    ensures Wrap(encoded, columns).Ok? && |PageRows(Wrap(encoded, columns).value, rows)| <= pages
  {
    hide Wrap, IsLayout;
    WrapOptimal(encoded, columns, layout);
    var lines := Wrap(encoded, columns).value;
    PagesPartition(lines, rows);
    CountLeast(|lines|, rows, pages);
  }

  // ----- Character ranges -----

  /** The part of the encoded text that rows stand for, as one long row. */
  function Span(encoded: Text, lines: seq<Line>): (r: Line)
  {
    if |lines| > 0 && lines[0].start <= lines[|lines| - 1].end <= |encoded|
    then Line(encoded[lines[0].start..lines[|lines| - 1].end], lines[0].start, lines[|lines| - 1].end)
    else Line([], 0, 0)
  }

  function Spans(encoded: Text, pages: seq<seq<Line>>): (r: seq<Line>)
    ensures |r| == |pages|
  {
    seq(|pages|, i requires 0 <= i < |pages| => Span(encoded, pages[i]))
  }

  lemma {:induction false} DecodeAppend(a: Text, b: Text)
    requires Decode(a).Ok?
    ensures Decode(a + b) == Prepend(Decode(a).value, Decode(b))
    decreases |a|
  {
    if |a| == 0 {
      assert a + b == b;
      PrependNothing(Decode(b));
    } else {
      StepAppend(a, b);
      var step := DecodeStep(a);
      assert (a + b)[step.length..] == a[step.length..] + b;
      DecodeAppend(a[step.length..], b);
      PrependTwice(step.decoded, Decode(a[step.length..]).value, Decode(b));
    }
  }

  lemma StepAppend(a: Text, b: Text)
    requires |a| > 0 && DecodeStep(a).Step?
    ensures DecodeStep(a + b) == DecodeStep(a)
  {
    if a[0] == BACKSLASH && StartsEscape(a) {
      var n := IndexOf(a[3..], CLOSE_BRACE).value;
      var hex, rest := a[3..][..n], a[3..][n + 1..];
      assert a[3..] == hex + ([CLOSE_BRACE] + rest);
      assert (a + b)[3..] == hex + ([CLOSE_BRACE] + (rest + b));
      IndexOfAppend(hex, CLOSE_BRACE, rest + b);
      assert (a + b)[3..3 + n] == hex == a[3..3 + n];
    }
  }

  function EndOf(lines: seq<Line>): nat
    requires |lines| > 0
  {
    lines[|lines| - 1].end
  }

  /** The first `k` rows of a covering: where they end, and how the rest goes on. */
  lemma {:induction false} CoversSplit(encoded: Text, lines: seq<Line>, from: nat, k: nat)
    requires Covers(encoded, lines, from) && 0 < k <= |lines|
    ensures from <= EndOf(lines[..k]) <= |encoded|
    ensures k == |lines| ==> EndOf(lines[..k]) == |encoded|
    ensures k < |lines| ==> var end, next := EndOf(lines[..k]), lines[k].start;
      Covers(encoded, lines[k..], next)
        && (next == end || (next == end + 1 && end < |encoded| && encoded[end] == NEWLINE))
  {
    if k > 1 {
      CoversSplit(encoded, lines[1..], lines[1].start, k - 1);
      assert lines[1..][k - 1..] == lines[k..] && lines[1..][..k - 1] == lines[1..k];
    }
  }

  lemma {:induction false} CoversSpan(encoded: Text, lines: seq<Line>, from: nat, k: nat)
    requires Covers(encoded, lines, from) && 0 < k <= |lines|
    ensures from <= EndOf(lines[..k]) <= |encoded|
    ensures Span(encoded, lines[..k]) == Line(encoded[from..EndOf(lines[..k])], from, EndOf(lines[..k]))
  {
    CoversSplit(encoded, lines, from, k);
  }

  lemma SliceTwo(encoded: Text, from: nat, end: nat, next: nat, to: nat)
    requires from <= end <= next <= to <= |encoded|
    requires next == end || (next == end + 1 && encoded[end] == NEWLINE)
    ensures encoded[from..to] == encoded[from..end] + ((if next == end then [] else [NEWLINE]) + encoded[next..to])
  {
  }

  lemma DecodeSeparated(a: Text, b: Text, gap: bool)
    requires Decode(a).Ok?
    ensures var sep := if gap then [NEWLINE] else [];
      Decode(a + (sep + b)) == Prepend(Decode(a).value + sep, Decode(b))
  {
    var sep: Text := if gap then [NEWLINE] else [];
    DecodeAppend(a, sep + b);
    PrependTwice(Decode(a).value, sep, Decode(b));
    if gap {
      assert (sep + b)[1..] == b;
      assert Decode(sep + b) == Prepend(sep, Decode(b));
    } else {
      assert sep + b == b && Decode(a).value + sep == Decode(a).value;
    }
  }

  /** Consecutive rows decode together, as one slice of the encoded text. */
  lemma {:induction false} RejoinSpan(encoded: Text, lines: seq<Line>, from: nat, k: nat)
    requires Covers(encoded, lines, from) && 0 < k <= |lines| && RejoinDecoded(lines).Ok?
    ensures from <= EndOf(lines[..k]) <= |encoded|
    ensures var end := EndOf(lines[..k]);
      var whole := Decode(encoded[from..end]);
      && whole.Ok?
      && RejoinDecoded(lines) == Prepend(whole.value + Separator(lines[k..], end), RejoinDecoded(lines[k..]))
  {
    hide Decode, Covers;
    CoversSplit(encoded, lines, from, k);
    CoversSplit(encoded, lines, from, 1);
    FirstRow(encoded, lines, from);
    var first := Decode(lines[0].text).value;
    if k > 1 {
      var next := lines[1].start;
      var end := EndOf(lines[..k]);
      RejoinSpan(encoded, lines[1..], next, k - 1);
      assert lines[1..][k - 1..] == lines[k..] && EndOf(lines[1..][..k - 1]) == end;
      SliceTwo(encoded, from, lines[0].end, next, end);
      DecodeSeparated(lines[0].text, encoded[next..end], next != lines[0].end);
      var rest := Decode(encoded[next..end]).value;
      var sep: Text := if next != lines[0].end then [NEWLINE] else [];
      PrependTwice(first + sep, rest + Separator(lines[k..], end), RejoinDecoded(lines[k..]));
      AppendAssoc(first + sep, rest, Separator(lines[k..], end));
    }
  }

  lemma FirstRow(encoded: Text, lines: seq<Line>, from: nat)
    requires Covers(encoded, lines, from)
    ensures |lines| > 0 && lines[0].start == from <= lines[0].end <= |encoded|
      && lines[0].text == encoded[from..lines[0].end]
    ensures EndOf(lines[..1]) == lines[0].end
  {
  }

  /** The character ranges of the pages cover the encoded text, and decoding every page by itself and rejoining
      gives what the rows give. */
  lemma {:induction false} SpansRejoin(encoded: Text, lines: seq<Line>, from: nat, rows: int)
    requires rows > 0 && Covers(encoded, lines, from) && RejoinDecoded(lines).Ok?
    ensures var spans := Spans(encoded, PageRows(lines, rows));
      Covers(encoded, spans, from) && RejoinDecoded(spans) == RejoinDecoded(lines)
    decreases |lines|
  {
    hide Decode, Span;
    var spans := Spans(encoded, PageRows(lines, rows));
    var k := if |lines| <= rows then |lines| else rows;
    FirstRow(encoded, lines, from);
    CoversSplit(encoded, lines, from, k);
    CoversSpan(encoded, lines, from, k);
    RejoinSpan(encoded, lines, from, k);
    if |lines| <= rows {
      assert lines[..k] == lines && spans == [Span(encoded, lines)];
      assert lines[k..] == [] && spans[1..] == [];
    } else {
      var next := lines[k].start;
      assert RejoinDecoded(lines[k..]).Ok?;
      SpansRejoin(encoded, lines[k..], next, rows);
      assert spans[0] == Span(encoded, lines[..k]);
      assert spans[1..] == Spans(encoded, PageRows(lines[k..], rows));
      FirstRow(encoded, spans[1..], next);
    }
  }

  // ----- The carrier -----

  function GlyphsOf(font: Font): Glyphs { c => c in font.glyphs }

  /** `Array.from(line).slice(0, columns).join('')`. */
  function Truncate(line: Text, columns: int): Text
  {
    var cs := Chars(line);
    if 0 <= columns < |cs| then Concat(cs[..columns]) else line
  }

  lemma {:induction false} ConcatWidth(cs: seq<Text>)
    requires forall i :: 0 <= i < |cs| ==> IsChar(cs[i])
    ensures |Chars(Concat(cs))| <= |cs|
  {
    if |cs| > 0 {
      ConcatWidth(cs[1..]);
      CharsSubadditive(cs[0], Concat(cs[1..]));
    }
  }

  lemma TruncateWidth(line: Text, columns: int)
    requires columns >= 0
    ensures |Chars(Truncate(line, columns))| <= columns
  {
    var cs := Chars(line);
    if columns < |cs| { ConcatWidth(cs[..columns]); }
  }

  function Slice(t: Text, from: nat, to: nat): Text
    requires from <= to
  {
    if |t| <= from then [] else if |t| <= to then t[from..] else t[from..to]
  }

  function HeaderLines(page: nat, pageCount: nat, digest: Text, columns: int): (r: seq<Text>)
    ensures |r| == 3
  {
    [ Truncate(Lit("ENIGMA VISUAL CONTEXT V1"), columns),
      Truncate(Lit("PAGE ") + Decimal(page) + Lit("/") + Decimal(pageCount) + Lit("  SRC ") + Slice(digest, 7, 23),
        columns),
      Truncate(Lit("UNICODE: \\u{HEX}  BACKSLASH: \\\\"), columns) ]
  }

  function LineText(l: Line): Text { l.text }

  /** What the renderer is asked to draw for one page of rows. */
  function PageOf(l: Layout, palette: Palette, font: Font, digest: Text, pages: seq<seq<Line>>, i: nat): Page
    requires i < |pages|
  {
    Page(l.width, l.height, l.margin, l.lineRepeat, palette, font,
      HeaderLines(i + 1, |pages|, digest, l.columns) + Map(LineText, pages[i]))
  }

  datatype CarrierPage = CarrierPage(page: nat, characterStart: nat, characterEnd: nat, lineStart: nat, lineEnd: nat,
    png: seq<Byte>)

  /** The record of one page: its number, its range of characters, its range of rows and a file that shows it. */
  ghost predicate IsPage(p: CarrierPage, encoded: Text, page: Page, pages: seq<seq<Line>>, rows: int, i: nat,
      inflate: seq<Byte> -> Option<seq<Byte>>)
    requires i < |pages| && page.font.defaultCharacter in page.font.glyphs && page.lineRepeat > 0
  {
    && p.page == i + 1
    && p.characterStart == Span(encoded, pages[i]).start && p.characterEnd == Span(encoded, pages[i]).end
    && p.lineStart == i * rows + 1 && p.lineEnd == i * rows + |pages[i]|
    && Displays(ReadPng(p.png, inflate), page)
  }

  /** Every page that the carrier draws fits its grid, so that no glyph is clipped. */
  lemma PageFits(o: Options, font: Font, digest: Text, text: Text, i: nat)
    requires Plan(o).Ok?
    requires var l := Plan(o).value;
      Wrap(Encode(GlyphsOf(font), text), l.columns).Ok?
      && i < |PageRows(Wrap(Encode(GlyphsOf(font), text), l.columns).value, l.rows)|
    ensures var l := Plan(o).value;
      FitsGrid(PageOf(l, o.palette, font, digest,
        PageRows(Wrap(Encode(GlyphsOf(font), text), l.columns).value, l.rows), i))
  {
    hide Plan, Wrap, Encode, PageRows, Chars, Truncate, Covers, RejoinDecoded;
    var l := Plan(o).value;
    PlanFills(o);
    WrapLossless(GlyphsOf(font), text, l.columns);
    var lines := Wrap(Encode(GlyphsOf(font), text), l.columns).value;
    var pages := PageRows(lines, l.rows);
    PagesPartition(lines, l.rows);
    PageNarrow(lines, l.rows, i, l.columns);
    HeaderNarrow(i + 1, |pages|, digest, l.columns);
    GridRows(l.margin, HEADER_ROWS + l.rows, l.lineRepeat, l.height, HEADER_ROWS + |pages[i]|);
  }

  lemma GridRows(margin: nat, rows: int, lineRepeat: nat, height: int, lines: nat)
    requires 2 * margin + rows * lineRepeat * CELL_HEIGHT <= height && lines <= rows
    ensures 2 * margin + lines * lineRepeat * CELL_HEIGHT <= height
  {
    Monotone(lines, rows, lineRepeat);
  }

  lemma HeaderNarrow(page: nat, pageCount: nat, digest: Text, columns: int)
    requires columns >= 0
    ensures forall i :: 0 <= i < 3 ==> |Chars(HeaderLines(page, pageCount, digest, columns)[i])| <= columns
  {
    hide Chars, Truncate;
    TruncateWidth(Lit("ENIGMA VISUAL CONTEXT V1"), columns);
    TruncateWidth(Lit("PAGE ") + Decimal(page) + Lit("/") + Decimal(pageCount) + Lit("  SRC ") + Slice(digest, 7, 23),
      columns);
    TruncateWidth(Lit("UNICODE: \\u{HEX}  BACKSLASH: \\\\"), columns);
  }

  lemma {:induction false} PageNarrow(lines: seq<Line>, rows: int, i: nat, columns: int)
    requires rows > 0 && RowsNarrow(lines, columns) && i < |PageRows(lines, rows)|
    ensures RowsNarrow(PageRows(lines, rows)[i], columns)
    decreases |lines|
  {
    if |lines| > rows && i > 0 { PageNarrow(lines[rows..], rows, i - 1, columns); }
  }

  /** `createVisualContextCarrier`. */
  method CreateCarrier(checksums: Checksums, text: Text, o: Options, font: Font, digest: Text,
      deflate: seq<Byte> -> seq<Byte>, ghost inflate: seq<Byte> -> Option<seq<Byte>>)
    returns (r: Result<seq<CarrierPage>>)
    requires checksums.Valid() && IsCellFont(font)
    requires IsCodec(deflate, inflate)
    modifies checksums
    ensures checksums.Valid()
    ensures r.Ok? ==> Plan(o).Ok?
    ensures Plan(o).Ok? ==>
      var l := Plan(o).value;
      var encoded := Encode(GlyphsOf(font), text);
      var lines := Wrap(encoded, l.columns);
      && lines.Ok? && (r.Ok? <==> PageCount(|lines.value|, l.rows) <= l.maxPages)
      && (r.Ok? ==>
            var pages := PageRows(lines.value, l.rows);
            && |r.value| == |pages|
            && forall i :: 0 <= i < |pages| ==>
                 IsPage(r.value[i], encoded, PageOf(l, o.palette, font, digest, pages, i), pages, l.rows, i, inflate))
  {
    hide Plan, Wrap, Encode, PageRows, Covers, RejoinDecoded, Span, Displays, ReadPng, HeaderLines;
    var plan := Plan(o);
    if plan.Throws? { return Throws; }
    var l := plan.value;
    PlanFills(o);
    var encoded := EncodeVisualContextText(GlyphsOf(font), text);
    WrapLossless(GlyphsOf(font), text, l.columns);
    var lines := WrapEncodedText(encoded, l.columns);
    var pages := Paginate(lines.value, l.rows);
    PagesPartition(lines.value, l.rows);
    if |pages| > l.maxPages { return Throws; }
    var result: seq<CarrierPage> := [];
    for i := 0 to |pages|
      invariant checksums.Valid() && |result| == i
      invariant forall k :: 0 <= k < i ==>
        IsPage(result[k], encoded, PageOf(l, o.palette, font, digest, pages, k), pages, l.rows, k, inflate)
    {
      var page := PageOf(l, o.palette, font, digest, pages, i);
      var png := RenderPage(checksums, page, deflate, inflate);
      var span := Span(encoded, pages[i]);
      result := result + [CarrierPage(i + 1, span.start, span.end, i * l.rows + 1, i * l.rows + |pages[i]|, png.value)];
    }
    r := Ok(result);
  }

  lemma PageRowsStep(lines: seq<Line>, rows: int, done: seq<seq<Line>>, startLine: nat)
    requires rows > 0 && startLine <= |lines| && PageRows(lines, rows) == done + PageRows(lines[startLine..], rows)
    ensures |lines| - startLine <= rows ==> PageRows(lines, rows) == done + [lines[startLine..]]
    ensures |lines| - startLine > rows ==>
      PageRows(lines, rows) == done + [lines[startLine..startLine + rows]] + PageRows(lines[startLine + rows..], rows)
  {
    var rest := lines[startLine..];
    if |rest| > rows {
      assert rest[..rows] == lines[startLine..startLine + rows] && rest[rows..] == lines[startLine + rows..];
      AppendAssoc(done, [rest[..rows]], PageRows(rest[rows..], rows));
    }
  }

  /** The slices that the page loop takes. */
  method Paginate(lines: seq<Line>, rows: int) returns (pages: seq<seq<Line>>)
    requires rows > 0
    ensures pages == PageRows(lines, rows)
  {
    hide PageRows, PageCount;
    var pageCount := PageCount(|lines|, rows);
    pages := [];
    var startLine := 0;
    assert lines[0..] == lines && [] + PageRows(lines, rows) == PageRows(lines, rows);
    PagesPartition(lines, rows);
    for pageIndex := 0 to pageCount
      invariant pageIndex < pageCount ==>
        && 0 <= startLine <= |lines| && startLine == pageIndex * rows
        && PageRows(lines, rows) == pages + PageRows(lines[startLine..], rows)
        && PageCount(|lines| - startLine, rows) == pageCount - pageIndex
      invariant pageIndex == pageCount ==> pages == PageRows(lines, rows)
    {
      PageRowsStep(lines, rows, pages, startLine);
      var end := if startLine + rows <= |lines| then startLine + rows else |lines|;
      pages := pages + [lines[startLine..end]];
      if |lines| - startLine <= rows {
        CountOne(|lines| - startLine, rows);
        assert lines[startLine..end] == lines[startLine..];
      } else {
        CountStep(|lines| - startLine, rows);
      }
      Distribute(pageIndex, 1, rows);
      startLine := startLine + rows;
    }
  }

  /** The pages of a carrier lose nothing: their character ranges cover the encoded text, adjacent or one
      newline apart, and decoding the ranges one by one and rejoining gives the source text. */
  lemma CarrierLossless(o: Options, font: Font, text: Text)
    requires Plan(o).Ok?
    ensures var l, encoded := Plan(o).value, Encode(GlyphsOf(font), text);
      var lines := Wrap(encoded, l.columns);
      && lines.Ok? && l.rows > 0
      && var spans := Spans(encoded, PageRows(lines.value, l.rows));
         Covers(encoded, spans, 0) && RejoinDecoded(spans) == Ok(text)
  {
    hide Plan, Wrap, Encode, PageRows, Covers, RejoinDecoded, Spans;
    PlanFills(o);
    var l, encoded := Plan(o).value, Encode(GlyphsOf(font), text);
    WrapLossless(GlyphsOf(font), text, l.columns);
    SpansRejoin(encoded, Wrap(encoded, l.columns).value, 0, l.rows);
  }
}
