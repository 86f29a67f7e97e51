/** What the pictures of a carrier tell: with a legible font, pages that look the same hold the same characters. */
module Legible {
  import opened JsText
  import opened Json
  import opened CanonicalJson
  import opened VisualText
  import opened Wrapping
  import opened WrapText
  import opened Raster
  import opened Carrier

  /** The font has all printable ASCII characters, and none for half of a surrogate pair. */
  ghost predicate IsTextFont(glyphs: Glyphs)
  {
    && (forall p :: 32 <= p < 127 ==> glyphs(p))
    && (forall p :: 0xD800 <= p < 0xE000 ==> !glyphs(p))
  }

  /** Every character of a text has a glyph. */
  ghost predicate IsShown(glyphs: Glyphs, t: Text)
  {
    forall i :: 0 <= i < |Chars(t)| ==> glyphs(CodePoint(Chars(t)[i]))
  }

  lemma {:induction false} ShownAppend(glyphs: Glyphs, a: Text, b: Text)
    requires IsTextFont(glyphs) && IsShown(glyphs, a)
    ensures Chars(a + b) == Chars(a) + Chars(b)
    decreases |a|
  {
    hide IsTextFont, IsShown, Chars, HeadChar;
    if |a| == 0 {
      NoChars();
      assert a + b == b;
    } else {
      var c := HeadChar(a);
      ShownTail(glyphs, a);
      HeadKept(glyphs, a, b);
      CharsHead(a);
      CharsHead(a + b);
      assert (a + b)[|c|..] == a[|c|..] + b;
      ShownAppend(glyphs, a[|c|..], b);
    }
  }

  lemma NoChars()
    ensures Chars([]) == []
  {
  }

  lemma CharsHead(t: Text)
    requires |t| > 0
    ensures Chars(t) == [HeadChar(t)] + Chars(t[|HeadChar(t)|..])
  {
  }

  lemma ShownTail(glyphs: Glyphs, t: Text)
    requires |t| > 0 && IsShown(glyphs, t)
    ensures glyphs(CodePoint(HeadChar(t))) && IsShown(glyphs, t[|HeadChar(t)|..])
  {
    hide CodePoint, HeadChar, Chars;
    CharsHead(t);
    var rest := Chars(t[|HeadChar(t)|..]);
    assert Chars(t)[0] == HeadChar(t) && Chars(t)[1..] == rest;
  }

  /** A character with a glyph is not half of a pair. */
  lemma HeadKept(glyphs: Glyphs, a: Text, b: Text)
    requires IsTextFont(glyphs) && |a| > 0 && glyphs(CodePoint(HeadChar(a)))
    ensures HeadChar(a + b) == HeadChar(a)
  {
  }

  lemma ShownBoth(glyphs: Glyphs, a: Text, b: Text)
    requires IsTextFont(glyphs) && IsShown(glyphs, a) && IsShown(glyphs, b)
    ensures IsShown(glyphs, a + b)
  {
    hide Chars, CodePoint;
    ShownAppend(glyphs, a, b);
  }

  predicate IsPrintable(t: Text) { forall i :: 0 <= i < |t| ==> 32 <= t[i] < 127 }

  lemma {:induction false} PrintableShown(glyphs: Glyphs, t: Text)
    requires IsTextFont(glyphs) && IsPrintable(t)
    ensures IsShown(glyphs, t)
  {
    if |t| > 0 {
      assert HeadChar(t) == t[..1];
      PrintableShown(glyphs, t[1..]);
      assert Chars(t) == [t[..1]] + Chars(t[1..]);
      assert CodePoint(t[..1]) == t[0];
    }
  }

  /** What stands for a character other than a newline is shown. */
  lemma EncodedShown(glyphs: Glyphs, c: Text)
    requires IsTextFont(glyphs) && IsChar(c) && c != [NEWLINE]
    ensures IsShown(glyphs, EncodedChar(glyphs, c))
  {
    var e := EncodedChar(glyphs, c);
    if e == c && c != [BACKSLASH] {
      assert HeadChar(c) == c && c[|c|..] == [];
      assert Chars(c) == [c] + Chars([]);
    } else {
      PrintableShown(glyphs, e);
    }
  }

  // ----- Rows -----

  ghost predicate AtomsShown(glyphs: Glyphs, atoms: seq<Atom>)
  {
    forall i :: 0 <= i < |atoms| ==> IsShown(glyphs, atoms[i].text)
  }

  ghost predicate RowsShown(glyphs: Glyphs, lines: seq<Line>)
  {
    forall i :: 0 <= i < |lines| ==> IsShown(glyphs, lines[i].text)
  }

  lemma {:induction false} TilesShown(glyphs: Glyphs, atoms: seq<Atom>, texts: seq<Text>, offset: nat)
    requires Tiles(atoms, texts, offset) && forall i :: 0 <= i < |texts| ==> IsShown(glyphs, texts[i])
    ensures AtomsShown(glyphs, atoms)
  {
    hide IsShown;
    if |atoms| > 0 {
      TilesShown(glyphs, atoms[1..], texts[1..], offset + |texts[0]|);
      assert atoms == [atoms[0]] + atoms[1..];
    }
  }

  lemma {:induction false} RowShown(glyphs: Glyphs, base: nat, group: seq<Atom>)
    requires IsTextFont(glyphs) && |group| > 0 && AtomsShown(glyphs, group)
    ensures IsShown(glyphs, LineOf(base, group).text)
  {
    hide LineOf, IsShown, IsTextFont;
    var n := |group| - 1;
    var init, atom := group[..n], group[n];
    assert group == init + [atom];
    LineSnoc(base, init, atom);
    if n == 0 {
      assert group == [atom];
    } else {
      RowShown(glyphs, base, init);
      ShownBoth(glyphs, LineOf(base, init).text, atom.text);
    }
  }

  lemma {:induction false} FlattenShown(glyphs: Glyphs, groups: seq<seq<Atom>>, i: nat)
    requires AtomsShown(glyphs, Flatten(groups)) && i < |groups|
    ensures AtomsShown(glyphs, groups[i])
  {
    hide IsShown;
    var g, rest := groups[0], Flatten(groups[1..]);
    assert Flatten(groups) == g + rest;
    assert g == (g + rest)[..|g|] && rest == (g + rest)[|g|..];
    if i > 0 { FlattenShown(glyphs, groups[1..], i - 1); }
  }

  lemma SourceShown(glyphs: Glyphs, a: Text, columns: int, base: nat)
    requires IsTextFont(glyphs) && NEWLINE !in a
    ensures RowsShown(glyphs, RowsOf(glyphs, a, columns, base))
  {
    hide Tiles, IsShown, IsTextFont, LineOf, Atoms, EncodedChar;
    var texts := EncodedChars(glyphs, Chars(a));
    EncodedAtomsTile(glyphs, a, 0);
    var atoms := Atoms(Encode(glyphs, a), 0).value;
    CharsConcat(a);
    forall i | 0 <= i < |texts| ensures IsShown(glyphs, texts[i]) {
      NoNewline(Chars(a), i);
      EncodedShown(glyphs, Chars(a)[i]);
    }
    TilesShown(glyphs, atoms, texts, 0);
    if |atoms| == 0 {
      PrintableShownNothing(glyphs);
    } else {
      var groups := Groups(atoms, columns);
      GroupsFlatten(atoms, columns);
      forall i | 0 <= i < |groups| ensures IsShown(glyphs, LineOf(base, groups[i]).text) {
        FlattenShown(glyphs, groups, i);
        RowShown(glyphs, base, groups[i]);
      }
    }
  }

  lemma PrintableShownNothing(glyphs: Glyphs)
    ensures IsShown(glyphs, [])
  {
  }

  lemma {:induction false} NoNewline(cs: seq<Text>, i: nat)
    requires i < |cs| && NEWLINE !in Concat(cs)
    ensures NEWLINE !in cs[i]
  {
    if i > 0 { NoNewline(cs[1..], i - 1); }
  }

  /** Every row of a wrapped text is shown. */
  lemma {:induction false} WrapShown(glyphs: Glyphs, text: Text, columns: int, base: nat)
    requires IsTextFont(glyphs)
    ensures var r := WrapLines(base, Split(Encode(glyphs, text)), columns); r.Ok? ==> RowsShown(glyphs, r.value)
    decreases |text|
  {
    hide Split, IsShown, Encode, WrapLines, RowsOf, IsTextFont;
    SplitEncoded(glyphs, text);
    IndexOfNone(text, NEWLINE);
    match IndexOf(text, NEWLINE)
    case None =>
      WrapOne(glyphs, text, columns, base);
      SourceShown(glyphs, text, columns, base);
    case Some(n) =>
      var a, b := text[..n], text[n + 1..];
      SourceShown(glyphs, a, columns, base);
      WrapMany(glyphs, a, columns, base, Split(Encode(glyphs, b)));
      WrapShown(glyphs, b, columns, base + |Encode(glyphs, a)| + 1);
  }

  lemma {:induction false} PageShown(glyphs: Glyphs, lines: seq<Line>, rows: int, i: nat)
    requires rows > 0 && RowsShown(glyphs, lines) && i < |PageRows(lines, rows)|
    ensures RowsShown(glyphs, PageRows(lines, rows)[i])
    decreases |lines|
  {
    hide IsShown;
    if |lines| > rows && i > 0 { PageShown(glyphs, lines[rows..], rows, i - 1); }
  }

  // ----- Headers -----

  lemma {:induction false} PrintableChars(t: Text, k: nat)
    requires IsPrintable(t) && k <= |t|
    ensures |Chars(t)| == |t| && Concat(Chars(t)[..k]) == t[..k]
  {
    if |t| > 0 {
      assert HeadChar(t) == t[..1] && Chars(t) == [t[..1]] + Chars(t[1..]);
      PrintableChars(t[1..], if k == 0 then 0 else k - 1);
      if k > 0 {
        assert Chars(t)[..k][1..] == Chars(t[1..])[..k - 1];
        assert t[..k] == t[..1] + t[1..][..k - 1];
      }
    }
  }

  /** A printable text is cut after the given number of units. */
  lemma TruncatedExactly(line: Text, columns: nat)
    requires IsPrintable(line)
    ensures Truncate(line, columns) == if columns < |line| then line[..columns] else line
  {
    PrintableChars(line, if columns < |line| then columns else |line|);
  }

  lemma {:induction false} DigitsPrintable(n: nat)
    ensures IsPrintable(Digits(n))
  {
  }

  lemma TruncatedShown(glyphs: Glyphs, line: Text, columns: int)
    requires IsTextFont(glyphs) && IsPrintable(line)
    ensures IsShown(glyphs, Truncate(line, columns))
  {
    hide IsTextFont, IsShown;
    if columns >= 0 { TruncatedExactly(line, columns); }
    PrintableShown(glyphs, Truncate(line, columns));
  }

  lemma SecondPrintable(page: nat, pageCount: nat, digest: Text)
    requires IsPrintable(digest)
    ensures IsPrintable(Lit("PAGE ") + Decimal(page) + Lit("/") + Decimal(pageCount) + Lit("  SRC ")
              + Slice(digest, 7, 23))
  {
    hide Digits;
    DigitsPrintable(page);
    DigitsPrintable(pageCount);
    assert IsPrintable(Lit("PAGE ")) && IsPrintable(Lit("/")) && IsPrintable(Lit("  SRC "));
    hide Lit;
    PrintableAppend(Lit("PAGE "), Decimal(page));
    PrintableAppend(Lit("PAGE ") + Decimal(page), Lit("/"));
    PrintableAppend(Lit("PAGE ") + Decimal(page) + Lit("/"), Decimal(pageCount));
    PrintableAppend(Lit("PAGE ") + Decimal(page) + Lit("/") + Decimal(pageCount), Lit("  SRC "));
    PrintableAppend(Lit("PAGE ") + Decimal(page) + Lit("/") + Decimal(pageCount) + Lit("  SRC "), Slice(digest, 7, 23));
  }

  lemma PrintableAppend(a: Text, b: Text)
    requires IsPrintable(a) && IsPrintable(b)
    ensures IsPrintable(a + b)
  {
  }

  lemma LitPrintable(s: string)
    requires forall i :: 0 <= i < |s| ==> ' ' <= s[i] <= '~'
    ensures IsPrintable(Lit(s))
  {
  }

  lemma HeaderShown(glyphs: Glyphs, page: nat, pageCount: nat, digest: Text, columns: int, i: nat)
    requires IsTextFont(glyphs) && IsPrintable(digest) && i < 3
    ensures IsShown(glyphs, HeaderLines(page, pageCount, digest, columns)[i])
  {
    hide IsTextFont, IsShown, Truncate, Lit, IsPrintable, Decimal, Slice;
    if i == 0 {
      LitPrintable("ENIGMA VISUAL CONTEXT V1");
      TruncatedShown(glyphs, Lit("ENIGMA VISUAL CONTEXT V1"), columns);
    } else if i == 1 {
      SecondPrintable(page, pageCount, digest);
      TruncatedShown(glyphs, Lit("PAGE ") + Decimal(page) + Lit("/") + Decimal(pageCount) + Lit("  SRC ")
        + Slice(digest, 7, 23), columns);
    } else {
      LitPrintable("UNICODE: \\u{HEX}  BACKSLASH: \\\\");
      TruncatedShown(glyphs, Lit("UNICODE: \\u{HEX}  BACKSLASH: \\\\"), columns);
    }
  }

  /** What stands on a page: the name of the format, the number of the page and the digest of the source, the notes on
      the escapes, each cut at the last column, and the rows. */
  lemma PageSays(l: Layout, palette: Palette, font: Font, digest: Text, pages: seq<seq<Line>>, i: nat, k: nat)
    requires i < |pages| && l.columns >= 24 && IsPrintable(digest) && |digest| >= 23 && k < |pages[i]|
    ensures var lines := PageOf(l, palette, font, digest, pages, i).lines;
      var second := Lit("PAGE ") + Decimal(i + 1) + Lit("/") + Decimal(|pages|) + Lit("  SRC ") + digest[7..23];
      var third := Lit("UNICODE: \\u{HEX}  BACKSLASH: \\\\");
      && |lines| == 3 + |pages[i]| && lines[3 + k] == pages[i][k].text
      && lines[0] == Lit("ENIGMA VISUAL CONTEXT V1")
      && lines[1] == (if l.columns < |second| then second[..l.columns] else second)
      && lines[2] == (if l.columns < |third| then third[..l.columns] else third)
  {
    hide Lit, Decimal, IsPrintable, Truncate;
    LitPrintable("ENIGMA VISUAL CONTEXT V1");
    LitPrintable("UNICODE: \\u{HEX}  BACKSLASH: \\\\");
    SecondPrintable(i + 1, |pages|, digest);
    TruncatedExactly(Lit("ENIGMA VISUAL CONTEXT V1"), l.columns);
    TruncatedExactly(Lit("UNICODE: \\u{HEX}  BACKSLASH: \\\\"), l.columns);
    TruncatedExactly(Lit("PAGE ") + Decimal(i + 1) + Lit("/") + Decimal(|pages|) + Lit("  SRC ")
      + Slice(digest, 7, 23), l.columns);
  }

  // ----- Pages -----

  /** A page of the carrier of a text. */
  ghost function CarrierPageOf(o: Options, font: Font, digest: Text, text: Text, i: nat): Option<Page>
  {
    if Plan(o).Throws? then None
    else
      var l := Plan(o).value;
      var lines := Wrap(Encode(GlyphsOf(font), text), l.columns);
      if l.rows <= 0 || lines.Throws? || |PageRows(lines.value, l.rows)| <= i then None
      else Some(PageOf(l, o.palette, font, digest, PageRows(lines.value, l.rows), i))
  }

  lemma CarrierShown(o: Options, font: Font, digest: Text, text: Text, i: nat)
    requires CarrierPageOf(o, font, digest, text, i).Some? && IsTextFont(GlyphsOf(font)) && IsPrintable(digest)
    ensures var page := CarrierPageOf(o, font, digest, text, i).value;
      && FitsGrid(page) && page.font == font
      && forall k :: 0 <= k < |page.lines| ==> IsShown(GlyphsOf(font), page.lines[k])
  {
    hide Plan, Wrap, PageRows, IsShown, IsTextFont, HeaderLines, IsPrintable, FitsGrid, Encode;
    var l, glyphs := Plan(o).value, GlyphsOf(font);
    PlanFills(o);
    WrapAsLines(glyphs, text, l.columns);
    WrapShown(glyphs, text, l.columns, 0);
    var lines := Wrap(Encode(glyphs, text), l.columns).value;
    var pages := PageRows(lines, l.rows);
    PageShown(glyphs, lines, l.rows, i);
    PageFits(o, font, digest, text, i);
    var page := CarrierPageOf(o, font, digest, text, i).value;
    forall k | 0 <= k < |page.lines| ensures IsShown(glyphs, page.lines[k]) {
      if k < 3 { HeaderShown(glyphs, i + 1, |pages|, digest, l.columns, k); }
    }
  }

  lemma WrapAsLines(glyphs: Glyphs, text: Text, columns: int)
    ensures Wrap(Encode(glyphs, text), columns) == WrapLines(0, Split(Encode(glyphs, text)), columns)
  {
  }

  /** Two pages of carriers with the same options, a legible font and pictures that look the same: every cell that
      both have holds the same character, and a cell that only one has holds one without ink. */
  lemma PicturesTellCharacters(o: Options, font: Font, digest: Text, text: Text, i: nat, digest2: Text, text2: Text,
      j: nat, line: nat, column: nat)
    requires IsCellFont(font) && IsLegible(font) && IsTextFont(GlyphsOf(font))
    requires IsPrintable(digest) && IsPrintable(digest2)
    requires CarrierPageOf(o, font, digest, text, i).Some? && CarrierPageOf(o, font, digest2, text2, j).Some?
    requires var page, other := CarrierPageOf(o, font, digest, text, i).value,
        CarrierPageOf(o, font, digest2, text2, j).value;
      && page.font == font && page.lineRepeat > 0 && SamePicture(page, other)
      && line < |page.lines| && column < |Chars(page.lines[line])|
    ensures var page, other := CarrierPageOf(o, font, digest, text, i).value,
        CarrierPageOf(o, font, digest2, text2, j).value;
      var c := Chars(page.lines[line])[column];
      if line < |other.lines| && column < |Chars(other.lines[line])| then Chars(other.lines[line])[column] == c
      else CodePoint(c) in font.glyphs && font.glyphs[CodePoint(c)] == []
  {
    hide CarrierPageOf, SamePicture, IsLegible, IsCellFont, IsTextFont, IsPrintable, Chars, CodePoint, FitsGrid;
    CarrierShown(o, font, digest, text, i);
    CarrierShown(o, font, digest2, text2, j);
    var page, other := CarrierPageOf(o, font, digest, text, i).value, CarrierPageOf(o, font, digest2, text2, j).value;
    assert IsShown(GlyphsOf(font), page.lines[line]);
    if line < |other.lines| && column < |Chars(other.lines[line])| {
      assert IsShown(GlyphsOf(font), other.lines[line]);
      SamePictureSameCharacter(page, other, line, column);
    } else {
      SamePictureBlank(page, other, line, column);
    }
  }
}
