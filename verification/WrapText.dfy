/** `wrapEncodedText` on whole texts: nothing is lost, every row fits, and no layout has fewer rows. */
module WrapText {
  import opened JsText
  import opened Sorting
  import opened Json
  import opened CanonicalJson
  import opened VisualText
  import opened Wrapping

  // ----- The outer loop -----

  function Wrap(encoded: Text, columns: int): Result<seq<Line>> { WrapLines(0, Split(encoded), columns) }

  function PrependLines(lines: seq<Line>, r: Result<seq<Line>>): Result<seq<Line>>
  {
    match r
    case Throws => Throws
    case Ok(rest) => Ok(lines + rest)
  }

  lemma PrependLinesFacts(a: seq<Line>, b: seq<Line>, r: Result<seq<Line>>)
    ensures PrependLines([], r) == r && PrependLines(a, Ok([])) == Ok(a) && PrependLines(a, Throws) == Throws
    ensures PrependLines(a, PrependLines(b, r)) == PrependLines(a + b, r)
  {
    assert a + [] == a;
    if r.Ok? {
      assert [] + r.value == r.value;
      AppendAssoc(a, b, r.value);
    }
  }

  lemma {:induction false} AtomsPositive(s: Text, offset: nat)
    ensures Atoms(s, offset).Ok? ==> forall i :: 0 <= i < |Atoms(s, offset).value| ==>
      Atoms(s, offset).value[i].cells > 0
    decreases |s|
  {
    if |s| > 0 && AtomLength(s).Ok? {
      var n := AtomLength(s).value;
      AtomsPositive(s[Min(n, |s|)..], offset + n);
    }
  }

  /** `wrapEncodedText`. */
  method WrapEncodedText(encoded: Text, columns: int) returns (r: Result<seq<Line>>)
    ensures r == Wrap(encoded, columns)
  {
    hide WrapLine, Atoms, PrependLines, Split;
    var sourceLines := Split(encoded);
    var wrapped: seq<Line> := [];
    var absoluteOffset: nat := 0;
    PrependLinesFacts([], [], WrapLines(0, sourceLines, columns));
    assert sourceLines[0..] == sourceLines;
    for sourceIndex := 0 to |sourceLines|
      invariant sourceIndex < |sourceLines| ==>
        Wrap(encoded, columns) == PrependLines(wrapped, WrapLines(absoluteOffset, sourceLines[sourceIndex..], columns))
      invariant sourceIndex == |sourceLines| ==> Wrap(encoded, columns) == Ok(wrapped)
    {
      var sourceLine := sourceLines[sourceIndex];
      var rest := sourceLines[sourceIndex..];
      assert rest[1..] == sourceLines[sourceIndex + 1..] && rest[0] == sourceLine;
      var atoms := EncodedAtoms(sourceLine);
      if atoms.Throws? {
        PrependLinesFacts(wrapped, [], Throws);
        return Throws;
      }
      ghost var below := WrapLines(absoluteOffset + |sourceLine| + 1, rest[1..], columns);
      WrapLinesHead(absoluteOffset, rest, columns, atoms.value);
      PrependLinesFacts(wrapped, WrapLine(absoluteOffset, atoms.value, columns), below);
      AtomsPositive(sourceLine, 0);
      var rows := WrapSourceLine(absoluteOffset, atoms.value, columns);
      wrapped := wrapped + rows;
      if sourceIndex == |sourceLines| - 1 { PrependLinesFacts(wrapped, [], below); }
      absoluteOffset := absoluteOffset + |sourceLine|;
      if sourceIndex < |sourceLines| - 1 { absoluteOffset := absoluteOffset + 1; }
    }
    r := Ok(wrapped);
  }

  lemma WrapLinesHead(base: nat, lines: seq<Text>, columns: int, atoms: seq<Atom>)
    requires |lines| > 0 && Atoms(lines[0], 0) == Ok(atoms)
    ensures WrapLines(base, lines, columns)
         == PrependLines(WrapLine(base, atoms, columns), WrapLines(base + |lines[0]| + 1, lines[1..], columns))
  {
  }

  method WrapSourceLine(base: nat, atoms: seq<Atom>, columns: int) returns (rows: seq<Line>)
    requires forall i :: 0 <= i < |atoms| ==> atoms[i].cells > 0
    ensures rows == WrapLine(base, atoms, columns)
  {
    if |atoms| == 0 { return [Line([], base, base)]; }
    rows := WrapAtoms(base, atoms, columns);
  }

  // ----- The atoms of an encoded line are its encoded characters -----

  lemma {:induction false} CharsAscii(t: Text)
    requires forall i :: 0 <= i < |t| ==> !IsHigh(t[i])
    ensures |Chars(t)| == |t|
  {
    if |t| > 0 { CharsAscii(t[1..]); }
  }

  lemma EscapeCells(p: nat)
    requires p <= 0x10FFFF
    ensures |Chars(UnicodeEscape(p))| == |UnicodeEscape(p)| <= 10
  {
    assert Power16(6) == 0x1000000;
    HexLength(p, 6);
    CharsAscii(UnicodeEscape(p));
  }

  lemma EncodeFirst(glyphs: Glyphs, text: Text)
    requires |text| > 0
    ensures |Encode(glyphs, text)| > 0
    ensures Encode(glyphs, text)[0] == BACKSLASH || Encode(glyphs, text)[0] == text[0]
  {
    EncodeHead(glyphs, text);
    var c := HeadChar(text);
    AppendHead(EncodedChar(glyphs, c), Encode(glyphs, text[|c|..]));
  }

  lemma RawAtom(c: Text, rest: Text)
    requires IsChar(c) && c[0] != BACKSLASH
    requires |c| == 1 && IsHigh(c[0]) && |rest| > 0 ==> !IsLow(rest[0])
    ensures AtomLength(c + rest) == Ok(|c|)
  {
    var s := c + rest;
    assert |c| == 1 && |s| > 1 ==> s[1] == rest[0];
  }

  lemma ShortAtom(u: Unit, rest: Text)
    requires u != LETTER_U
    ensures AtomLength([BACKSLASH, u] + rest) == Ok(2)
  {
  }

  lemma EscapeAtom(p: nat, rest: Text)
    ensures AtomLength(UnicodeEscape(p) + rest) == Ok(|UnicodeEscape(p)|)
  {
    var hex := UpperHex(p);
    var s := UnicodeEscape(p) + rest;
    assert s[3..] == hex + ([CLOSE_BRACE] + rest);
    IndexOfAppend(hex, CLOSE_BRACE, rest);
  }

  /** The first atom of an encoded text is the encoding of its first character. */
  lemma FirstAtom(glyphs: Glyphs, text: Text)
    requires |text| > 0
    ensures AtomLength(Encode(glyphs, text)) == Ok(|EncodedChar(glyphs, HeadChar(text))|)
  {
    hide AtomLength, Encode, UnicodeEscape;
    var c := HeadChar(text);
    var tail := text[|c|..];
    EncodeHead(glyphs, text);
    var rest := Encode(glyphs, tail);
    if EncodedChar(glyphs, c) == c && c != [BACKSLASH] {
      if |tail| > 0 { EncodeFirst(glyphs, tail); }
      if |tail| == 0 { EncodeNothing(glyphs, tail); }
      RawAtom(c, rest);
    } else if c == [BACKSLASH] {
      ShortAtom(BACKSLASH, rest);
    } else if c == [9] {
      ShortAtom(LETTER_T, rest);
    } else if c == [13] {
      ShortAtom(LETTER_R, rest);
    } else {
      EscapeAtom(CodePoint(c), rest);
    }
  }

  lemma EncodeNothing(glyphs: Glyphs, text: Text)
    requires |text| == 0
    ensures Encode(glyphs, text) == []
  {
  }

  lemma AtomCells(glyphs: Glyphs, c: Text)
    requires IsChar(c)
    ensures var e := EncodedChar(glyphs, c);
      |e| > 0 && 1 <= (if e[0] != BACKSLASH then 1 else |Chars(e)|) <= 10
  {
    var e := EncodedChar(glyphs, c);
    if e[0] == BACKSLASH {
      if |e| == 2 { CharsAscii(e); } else { EscapeCells(CodePoint(c)); }
    }
  }

  /** Atoms that carry given texts end to end, each of one to ten cells. */
  ghost predicate Tiles(atoms: seq<Atom>, texts: seq<Text>, offset: nat)
  {
    && |atoms| == |texts|
    && (|atoms| > 0 ==>
          && atoms[0].text == texts[0] && atoms[0].start == offset && atoms[0].end == offset + |texts[0]|
          && 1 <= atoms[0].cells <= 10
          && Tiles(atoms[1..], texts[1..], offset + |texts[0]|))
  }

  lemma {:induction false} EncodedAtomsTile(glyphs: Glyphs, text: Text, offset: nat)
    ensures Atoms(Encode(glyphs, text), offset).Ok?
    ensures Tiles(Atoms(Encode(glyphs, text), offset).value, EncodedChars(glyphs, Chars(text)), offset)
    decreases |text|
  {
    hide EncodedChar, AtomLength, AtomAt, Encode, EncodedChars, Chars, Atoms, Tiles;
    if |text| > 0 {
      var c := HeadChar(text);
      var e, tail := EncodedChar(glyphs, c), text[|c|..];
      EncodeHead(glyphs, text);
      EncodedAtomsTile(glyphs, tail, offset + |e|);
      FirstAtom(glyphs, text);
      AtomCells(glyphs, c);
      EncodedTail(glyphs, text);
      AtomsHead(e, Encode(glyphs, tail), offset);
      var rest := Atoms(Encode(glyphs, tail), offset + |e|).value;
      TilesCons(AtomAt(e + Encode(glyphs, tail), offset, |e|), rest, EncodedChars(glyphs, Chars(text)), offset);
    } else {
      NothingTiles(glyphs, text, offset);
    }
  }

  lemma TilesCons(atom: Atom, rest: seq<Atom>, texts: seq<Text>, offset: nat)
    requires |texts| > 0 && Tiles(rest, texts[1..], offset + |texts[0]|)
    requires atom.text == texts[0] && atom.start == offset && atom.end == offset + |texts[0]| && 1 <= atom.cells <= 10
    ensures Tiles([atom] + rest, texts, offset)
  {
    assert ([atom] + rest)[1..] == rest;
  }

  lemma NothingTiles(glyphs: Glyphs, text: Text, offset: nat)
    requires |text| == 0
    ensures Atoms(Encode(glyphs, text), offset) == Ok([])
    ensures Tiles([], EncodedChars(glyphs, Chars(text)), offset)
  {
    EncodeNothing(glyphs, text);
  }

  lemma AtomsHead(e: Text, t: Text, offset: nat)
    requires |e| > 0 && AtomLength(e + t) == Ok(|e|) && Atoms(t, offset + |e|).Ok?
    ensures Atoms(e + t, offset) == Ok([AtomAt(e + t, offset, |e|)] + Atoms(t, offset + |e|).value)
    ensures AtomAt(e + t, offset, |e|) == Atom(e, offset, offset + |e|, if e[0] != BACKSLASH then 1 else |Chars(e)|)
  {
    hide AtomLength, Chars;
    assert (e + t)[..|e|] == e && (e + t)[|e|..] == t && (e + t)[0] == e[0];
  }

  lemma EncodedTail(glyphs: Glyphs, text: Text)
    requires |text| > 0
    ensures var texts := EncodedChars(glyphs, Chars(text));
      && |texts| > 0 && texts[0] == EncodedChar(glyphs, HeadChar(text))
      && texts[1..] == EncodedChars(glyphs, Chars(text[|HeadChar(text)|..]))
  {
  }

  // ----- Rows are consecutive slices -----

  /** Rows that cover the encoded text from one offset to another without a gap. */
  ghost predicate Run(encoded: Text, lines: seq<Line>, from: nat, to: nat)
  {
    && |lines| > 0 && lines[0].start == from <= lines[0].end <= to <= |encoded|
    && lines[0].text == encoded[from..lines[0].end]
    && if |lines| == 1 then lines[0].end == to else Run(encoded, lines[1..], lines[0].end, to)
  }

  /** Rows that cover the whole encoded text: adjacent, or separated by exactly one newline. */
  ghost predicate Covers(encoded: Text, lines: seq<Line>, from: nat)
  {
    && |lines| > 0 && lines[0].start == from <= lines[0].end <= |encoded|
    && lines[0].text == encoded[from..lines[0].end]
    && var end := lines[0].end;
       if |lines| == 1 then end == |encoded|
       else
         || (lines[1].start == end && Covers(encoded, lines[1..], end))
         || (end < |encoded| && encoded[end] == NEWLINE && lines[1].start == end + 1
              && Covers(encoded, lines[1..], end + 1))
  }

  lemma {:induction false} TilesSplit(atoms: seq<Atom>, texts: seq<Text>, offset: nat, k: nat)
    requires Tiles(atoms, texts, offset) && 0 < k <= |atoms|
    ensures Map(AtomText, atoms[..k]) == texts[..k]
    ensures atoms[0].start == offset && atoms[k - 1].end == offset + |Concat(texts[..k])|
    ensures Tiles(atoms[k..], texts[k..], offset + |Concat(texts[..k])|)
  {
    assert texts[..k][0] == texts[0] && texts[..k][1..] == texts[1..][..k - 1];
    if k == 1 {
      assert Concat(texts[..k]) == texts[0] + Concat(texts[1..][..0]);
    } else {
      var next := offset + |texts[0]|;
      TilesSplit(atoms[1..], texts[1..], next, k - 1);
      assert atoms[1..][..k - 1] == atoms[1..k] && atoms[1..][k - 1..] == atoms[k..]
        && texts[1..][k - 1..] == texts[k..];
      assert Map(AtomText, atoms[..k]) == [atoms[0].text] + Map(AtomText, atoms[1..k]);
      assert texts[..k] == [texts[0]] + texts[1..][..k - 1];
    }
  }

  lemma ConcatSplit(texts: seq<Text>, k: nat)
    requires k <= |texts|
    ensures Concat(texts) == Concat(texts[..k]) + Concat(texts[k..])
  {
    ConcatAppend(texts[..k], texts[k..]);
    assert texts[..k] + texts[k..] == texts;
  }

  /** What one row is, when the atoms of its group carry the first `k` of the texts. */
  lemma HeadRow(base: nat, groups: seq<seq<Atom>>, atoms: seq<Atom>, texts: seq<Text>, offset: nat)
    requires |groups| > 0 && |groups[0]| > 0 && Flatten(groups) == atoms && Tiles(atoms, texts, offset)
    ensures var k := |groups[0]|;
      && k <= |texts| == |atoms|
      && LineOf(base, groups[0]) == Line(Concat(texts[..k]), base + offset, base + offset + |Concat(texts[..k])|)
      && Flatten(groups[1..]) == atoms[k..] && Tiles(atoms[k..], texts[k..], offset + |Concat(texts[..k])|)
  {
    TilesSplit(atoms, texts, offset, |groups[0]|);
  }

  lemma {:induction false} GroupsRun(encoded: Text, base: nat, groups: seq<seq<Atom>>, atoms: seq<Atom>,
      texts: seq<Text>, offset: nat)
    requires |groups| > 0 && forall i :: 0 <= i < |groups| ==> |groups[i]| > 0
    requires Flatten(groups) == atoms && Tiles(atoms, texts, offset)
    requires base + offset + |Concat(texts)| <= |encoded|
    requires encoded[base + offset..base + offset + |Concat(texts)|] == Concat(texts)
    ensures Run(encoded, LinesOf(base, groups), base + offset, base + offset + |Concat(texts)|)
    decreases |groups|
  {
    hide Tiles, Flatten, LineOf;
    var k := |groups[0]|;
    var lines := LinesOf(base, groups);
    HeadRow(base, groups, atoms, texts, offset);
    var from, end := base + offset, base + offset + |Concat(texts[..k])|;
    ConcatSplit(texts, k);
    var here := encoded[from..from + |Concat(texts)|];
    assert encoded[from..end] == here[..|Concat(texts[..k])|] == Concat(texts[..k]);
    assert lines[0] == LineOf(base, groups[0]);
    if |groups| == 1 {
      FlattenNone(groups[1..]);
      assert |texts[k..]| == 0 by { TilesCount(atoms[k..], texts[k..], offset + |Concat(texts[..k])|); }
    } else {
      assert encoded[end..from + |Concat(texts)|] == here[|Concat(texts[..k])|..] == Concat(texts[k..]);
      GroupsRun(encoded, base, groups[1..], atoms[k..], texts[k..], offset + |Concat(texts[..k])|);
      assert LinesOf(base, groups[1..]) == lines[1..];
    }
  }

  lemma FlattenNone(groups: seq<seq<Atom>>)
    requires |groups| == 0
    ensures Flatten(groups) == []
  {
  }

  lemma TilesCount(atoms: seq<Atom>, texts: seq<Text>, offset: nat)
    requires Tiles(atoms, texts, offset)
    ensures |atoms| == |texts|
  {
  }

  // ----- Decoding row by row -----

  /** Decodes every row by itself and rejoins the results, with a newline where the offsets leave a gap. */
  function RejoinDecoded(lines: seq<Line>): Result<Text>
  {
    if |lines| == 0 then Ok([])
    else match Decode(lines[0].text)
      case Throws => Throws
      case Ok(t) => Prepend(t + (if |lines| > 1 && lines[1].start != lines[0].end then [NEWLINE] else []),
        RejoinDecoded(lines[1..]))
  }

  lemma {:induction false} GroupsRejoin(glyphs: Glyphs, base: nat, groups: seq<seq<Atom>>, atoms: seq<Atom>,
      cs: seq<Text>, offset: nat, rest: seq<Line>, separator: Text)
    requires |groups| > 0 && forall i :: 0 <= i < |groups| ==> |groups[i]| > 0
    requires forall i :: 0 <= i < |cs| ==> IsChar(cs[i])
    requires Flatten(groups) == atoms && Tiles(atoms, EncodedChars(glyphs, cs), offset)
    requires var end := base + offset + |Concat(EncodedChars(glyphs, cs))|;
      separator == if |rest| > 0 && rest[0].start != end then [NEWLINE] else []
    ensures RejoinDecoded(LinesOf(base, groups) + rest) == Prepend(Concat(cs) + separator, RejoinDecoded(rest))
    decreases |groups|
  {
    hide Tiles, Flatten, LineOf, EncodedChars, Decode;
    var texts := EncodedChars(glyphs, cs);
    var k := |groups[0]|;
    var lines := LinesOf(base, groups) + rest;
    HeadRow(base, groups, atoms, texts, offset);
    EncodedSlice(glyphs, cs, k);
    CharsDecode(glyphs, cs[..k]);
    ConcatSplit(cs, k);
    ConcatSplit(texts, k);
    assert lines[0] == LineOf(base, groups[0]);
    if |groups| == 1 {
      FlattenNone(groups[1..]);
      TilesCount(atoms[k..], texts[k..], offset + |Concat(texts[..k])|);
      assert Concat(cs[k..]) == [] && Concat(texts[k..]) == [];
      assert Concat(cs[..k]) + [] == Concat(cs[..k]);
      assert lines[1..] == rest;
    } else {
      var next := offset + |Concat(texts[..k])|;
      GroupsRejoin(glyphs, base, groups[1..], atoms[k..], cs[k..], next, rest, separator);
      assert lines[1..] == LinesOf(base, groups[1..]) + rest;
      HeadRow(base, groups[1..], atoms[k..], texts[k..], next);
      assert lines[1].start == lines[0].end;
      assert Concat(cs[..k]) + [] == Concat(cs[..k]);
      PrependTwice(Concat(cs[..k]), Concat(cs[k..]) + separator, RejoinDecoded(rest));
      AppendAssoc(Concat(cs[..k]), Concat(cs[k..]), separator);
    }
  }

  lemma EncodedSlice(glyphs: Glyphs, cs: seq<Text>, k: nat)
    requires k <= |cs| && forall i :: 0 <= i < |cs| ==> IsChar(cs[i])
    ensures EncodedChars(glyphs, cs)[..k] == EncodedChars(glyphs, cs[..k])
    ensures EncodedChars(glyphs, cs)[k..] == EncodedChars(glyphs, cs[k..])
  {
  }

  // ----- Rows fit -----

  lemma {:induction false} CharsSubadditive(a: Text, b: Text)
    ensures |Chars(a + b)| <= |Chars(a)| + |Chars(b)|
    decreases |a|
  {
    if |a| == 0 {
      assert a + b == b;
    } else if |a| == 1 && StartsWithPair(a + b) {
      assert (a + b)[2..] == b[1..];
      assert Chars(b) == [b[..1]] + Chars(b[1..]);
    } else {
      var n := |HeadChar(a)|;
      assert HeadChar(a + b) == HeadChar(a);
      assert (a + b)[n..] == a[n..] + b;
      CharsSubadditive(a[n..], b);
    }
  }

  ghost predicate CellsCountChars(atoms: seq<Atom>)
  {
    forall i :: 0 <= i < |atoms| ==> |Chars(atoms[i].text)| == atoms[i].cells
  }

  /** An atom takes one cell for each of its characters. */
  lemma {:induction false} AtomsCountChars(s: Text, offset: nat)
    ensures Atoms(s, offset).Ok? ==> CellsCountChars(Atoms(s, offset).value)
    decreases |s|
  {
    hide AtomLength, AtomAt, Chars;
    if |s| > 0 && AtomLength(s).Ok? {
      var n := AtomLength(s).value;
      AtomsCountChars(s[Min(n, |s|)..], offset + n);
      HeadCountsChars(s, offset, n);
    }
  }

  lemma HeadCountsChars(s: Text, offset: nat, n: nat)
    requires |s| > 0 && AtomLength(s) == Ok(n)
    ensures |Chars(AtomAt(s, offset, n).text)| == AtomAt(s, offset, n).cells
  {
    if s[0] != BACKSLASH {
      var c := HeadChar(s);
      assert AtomAt(s, offset, n).text == c;
      assert HeadChar(c) == c && c[|c|..] == [];
      assert Chars(c) == [c] + Chars([]);
    }
  }

  /** A row is as wide as the cells of its group, at most. */
  lemma {:induction false} RowWidth(base: nat, group: seq<Atom>)
    requires |group| > 0 && CellsCountChars(group)
    ensures |Chars(LineOf(base, group).text)| <= Cells(group)
  {
    hide LineOf, Chars;
    var n := |group| - 1;
    var init, atom := group[..n], group[n];
    assert group == init + [atom];
    LineSnoc(base, init, atom);
    CellsSnoc(init, atom);
    if n == 0 {
      assert group == [atom];
    } else {
      RowWidth(base, init);
      CharsSubadditive(LineOf(base, init).text, atom.text);
    }
  }

  ghost predicate RowsNarrow(lines: seq<Line>, columns: int)
  {
    forall i :: 0 <= i < |lines| ==> |Chars(lines[i].text)| <= columns
  }

  lemma {:induction false} FlattenCounts(groups: seq<seq<Atom>>, i: nat)
    requires CellsCountChars(Flatten(groups)) && i < |groups|
    ensures CellsCountChars(groups[i])
  {
    var g, rest := groups[0], Flatten(groups[1..]);
    assert Flatten(groups) == g + rest;
    if i == 0 {
      forall k | 0 <= k < |g| ensures |Chars(g[k].text)| == g[k].cells { assert (g + rest)[k] == g[k]; }
    } else {
      forall k | 0 <= k < |rest| ensures |Chars(rest[k].text)| == rest[k].cells {
        assert (g + rest)[|g| + k] == rest[k];
      }
      FlattenCounts(groups[1..], i - 1);
    }
  }

  lemma {:induction false} TilesCells(atoms: seq<Atom>, texts: seq<Text>, offset: nat)
    requires Tiles(atoms, texts, offset)
    ensures forall i :: 0 <= i < |atoms| ==> atoms[i].cells <= 10
  {
    if |atoms| > 0 {
      TilesCells(atoms[1..], texts[1..], offset + |texts[0]|);
      assert atoms == [atoms[0]] + atoms[1..];
    }
  }

  lemma LineNarrow(base: nat, s: Text, texts: seq<Text>, columns: int)
    requires columns >= 10 && Atoms(s, 0).Ok? && Tiles(Atoms(s, 0).value, texts, 0)
    ensures RowsNarrow(WrapLine(base, Atoms(s, 0).value, columns), columns)
  {
    hide Tiles, LineOf, Atoms;
    var atoms := Atoms(s, 0).value;
    AtomsCountChars(s, 0);
    TilesCells(atoms, texts, 0);
    GroupsFit(atoms, columns);
    var groups := Groups(atoms, columns);
    forall i | 0 <= i < |groups| ensures |Chars(LineOf(base, groups[i]).text)| <= columns {
      FlattenCounts(groups, i);
      RowWidth(base, groups[i]);
    }
  }

  // ----- Source lines -----

  lemma {:induction false} CharsNewline(a: Text, b: Text)
    ensures Chars(a + ([NEWLINE] + b)) == Chars(a) + ([[NEWLINE]] + Chars(b))
    decreases |a|
  {
    var s := a + ([NEWLINE] + b);
    if |a| == 0 {
      assert s == [NEWLINE] + b;
      assert s[1..] == b && s[..1] == [NEWLINE];
    } else {
      var n := |HeadChar(a)|;
      assert |a| == 1 ==> s[1] == NEWLINE;
      assert HeadChar(s) == HeadChar(a);
      assert s[n..] == a[n..] + ([NEWLINE] + b);
      CharsNewline(a[n..], b);
      assert Chars(s) == [HeadChar(a)] + (Chars(a[n..]) + ([[NEWLINE]] + Chars(b)));
      AppendAssoc([HeadChar(a)], Chars(a[n..]), [[NEWLINE]] + Chars(b));
    }
  }

  lemma EncodeNewline(glyphs: Glyphs, a: Text, b: Text)
    ensures Encode(glyphs, a + ([NEWLINE] + b)) == Encode(glyphs, a) + ([NEWLINE] + Encode(glyphs, b))
  {
    hide Chars, EncodedChars, Concat;
    CharsNewline(a, b);
    var x, y := EncodedChars(glyphs, Chars(a)), EncodedChars(glyphs, Chars(b));
    EncodedNewline(glyphs, Chars(a), Chars(b));
    ConcatAppend(x, [[NEWLINE]] + y);
    ConcatCons([NEWLINE], y);
  }

  lemma EncodedNewline(glyphs: Glyphs, cs: seq<Text>, ds: seq<Text>)
    requires (forall i :: 0 <= i < |cs| ==> IsChar(cs[i])) && forall i :: 0 <= i < |ds| ==> IsChar(ds[i])
    ensures EncodedChars(glyphs, cs + ([[NEWLINE]] + ds))
      == EncodedChars(glyphs, cs) + ([[NEWLINE]] + EncodedChars(glyphs, ds))
  {
    var all := EncodedChars(glyphs, cs + ([[NEWLINE]] + ds));
    assert all[|cs|] == [NEWLINE];
  }

  lemma ConcatCons(t: Text, texts: seq<Text>)
    ensures Concat([t] + texts) == t + Concat(texts)
  {
    assert ([t] + texts)[1..] == texts;
  }

  lemma {:induction false} EncodeNoNewline(glyphs: Glyphs, a: Text)
    requires NEWLINE !in a
    ensures NEWLINE !in Encode(glyphs, a)
    decreases |a|
  {
    if |a| == 0 {
      EncodeNothing(glyphs, a);
    } else {
      EncodeHead(glyphs, a);
      var c := HeadChar(a);
      assert NEWLINE !in EncodedChar(glyphs, c);
      EncodeNoNewline(glyphs, a[|c|..]);
    }
  }

  lemma {:induction false} IndexOfNone(t: Text, u: Unit)
    ensures IndexOf(t, u).None? <==> u !in t
  {
    if |t| > 0 {
      IndexOfNone(t[1..], u);
      assert t == [t[0]] + t[1..];
    }
  }

  /** An encoded text splits into the encodings of the lines of the source text. */
  lemma {:induction false} SplitEncoded(glyphs: Glyphs, text: Text)
    ensures match IndexOf(text, NEWLINE)
      case None => Split(Encode(glyphs, text)) == [Encode(glyphs, text)]
      case Some(n) => Split(Encode(glyphs, text)) == [Encode(glyphs, text[..n])] + Split(Encode(glyphs, text[n + 1..]))
  {
    hide Encode, IndexOf;
    match IndexOf(text, NEWLINE)
    case None =>
      IndexOfNone(text, NEWLINE);
      EncodeNoNewline(glyphs, text);
      IndexOfNone(Encode(glyphs, text), NEWLINE);
    case Some(n) =>
      var a, b := text[..n], text[n + 1..];
      assert text == a + ([NEWLINE] + b);
      EncodeNewline(glyphs, a, b);
      EncodeNoNewline(glyphs, a);
      IndexOfAppend(Encode(glyphs, a), NEWLINE, Encode(glyphs, b));
      var s, m := Encode(glyphs, text), |Encode(glyphs, a)|;
      assert s[..m] == Encode(glyphs, a) && s[m + 1..] == Encode(glyphs, b);
  }

  lemma {:induction false} RunCovers(encoded: Text, lines: seq<Line>, from: nat, to: nat, rest: seq<Line>)
    requires Run(encoded, lines, from, to)
    requires if |rest| == 0 then to == |encoded|
      else to < |encoded| && encoded[to] == NEWLINE && rest[0].start == to + 1 && Covers(encoded, rest, to + 1)
    ensures Covers(encoded, lines + rest, from)
    decreases |lines|
  {
    var all := lines + rest;
    assert all[0] == lines[0];
    if |lines| == 1 {
      assert all[1..] == rest;
    } else {
      RunCovers(encoded, lines[1..], lines[0].end, to, rest);
      assert all[1..] == lines[1..] + rest && all[1] == lines[1];
    }
  }

  /** The rows of one source line at an offset of the encoded text. */
  function RowsOf(glyphs: Glyphs, a: Text, columns: int, base: nat): seq<Line>
  {
    var atoms := Atoms(Encode(glyphs, a), 0);
    if atoms.Throws? then [] else WrapLine(base, atoms.value, columns)
  }

  lemma SourceRun(glyphs: Glyphs, a: Text, columns: int, encoded: Text, base: nat)
    requires var e := Encode(glyphs, a); base + |e| <= |encoded| && encoded[base..base + |e|] == e
    ensures Run(encoded, RowsOf(glyphs, a, columns, base), base, base + |Encode(glyphs, a)|)
  {
    hide Tiles, Groups, Run, Atoms, Flatten, LinesOf, Chars, EncodedChars, Concat;
    var texts := EncodedChars(glyphs, Chars(a));
    EncodedAtomsTile(glyphs, a, 0);
    var atoms := Atoms(Encode(glyphs, a), 0).value;
    TilesCount(atoms, texts, 0);
    if |atoms| == 0 {
      ConcatNone(texts);
      EmptySourceLine(encoded, base);
    } else {
      GroupsFlatten(atoms, columns);
      GroupsRun(encoded, base, Groups(atoms, columns), atoms, texts, 0);
    }
  }

  lemma ConcatNone(texts: seq<Text>)
    requires |texts| == 0
    ensures Concat(texts) == []
  {
  }

  function Separator(rest: seq<Line>, end: nat): Text
  {
    if |rest| > 0 && rest[0].start != end then [NEWLINE] else []
  }

  lemma SourceRejoin(glyphs: Glyphs, a: Text, columns: int, base: nat, rest: seq<Line>)
    ensures RejoinDecoded(RowsOf(glyphs, a, columns, base) + rest)
         == Prepend(a + Separator(rest, base + |Encode(glyphs, a)|), RejoinDecoded(rest))
  {
    hide Tiles, Groups, Atoms, Flatten, LinesOf, RejoinDecoded, Prepend;
    var cs := Chars(a);
    EncodedAtomsTile(glyphs, a, 0);
    var atoms := Atoms(Encode(glyphs, a), 0).value;
    TilesCount(atoms, EncodedChars(glyphs, cs), 0);
    CharsConcat(a);
    if |atoms| == 0 {
      EmptyRejoin(base, rest);
      EncodeNothing(glyphs, a);
    } else {
      GroupsFlatten(atoms, columns);
      GroupsRejoin(glyphs, base, Groups(atoms, columns), atoms, cs, 0, rest,
        Separator(rest, base + |Encode(glyphs, a)|));
    }
  }

  lemma EmptyRejoin(base: nat, rest: seq<Line>)
    ensures RejoinDecoded([Line([], base, base)] + rest) == Prepend([] + Separator(rest, base), RejoinDecoded(rest))
  {
    assert ([Line([], base, base)] + rest)[1..] == rest;
  }

  lemma SourceNarrow(glyphs: Glyphs, a: Text, columns: int, base: nat)
    requires columns >= 10
    ensures RowsNarrow(RowsOf(glyphs, a, columns, base), columns)
  {
    EncodedAtomsTile(glyphs, a, 0);
    LineNarrow(base, Encode(glyphs, a), EncodedChars(glyphs, Chars(a)), columns);
  }

  lemma EmptySourceLine(encoded: Text, base: nat)
    requires base <= |encoded|
    ensures Run(encoded, [Line([], base, base)], base, base)
  {
    assert encoded[base..base] == [];
  }

  lemma RowsNarrowAppend(a: seq<Line>, b: seq<Line>, columns: int)
    requires RowsNarrow(a, columns) && RowsNarrow(b, columns)
    ensures RowsNarrow(a + b, columns)
  {
  }

  lemma {:induction false} WrapFrom(glyphs: Glyphs, text: Text, columns: int, encoded: Text, base: nat)
    requires base <= |encoded| && encoded[base..] == Encode(glyphs, text)
    ensures var r := WrapLines(base, Split(Encode(glyphs, text)), columns);
      r.Ok? && Covers(encoded, r.value, base) && RejoinDecoded(r.value) == Ok(text)
      && (columns >= 10 ==> RowsNarrow(r.value, columns))
    decreases |text|
  {
    hide WrapLine, Split, RejoinDecoded, Covers, Run, RowsNarrow, Encode, WrapLines, Prepend, RowsOf, Separator;
    SplitEncoded(glyphs, text);
    match IndexOf(text, NEWLINE)
    case None =>
      var e := Encode(glyphs, text);
      assert encoded[base..base + |e|] == e;
      SourceRun(glyphs, text, columns, encoded, base);
      SourceRejoin(glyphs, text, columns, base, []);
      if columns >= 10 { SourceNarrow(glyphs, text, columns, base); }
      var rows := RowsOf(glyphs, text, columns, base);
      WrapOne(glyphs, text, columns, base);
      RunCovers(encoded, rows, base, base + |e|, []);
      assert rows + [] == rows;
      RejoinNone(text, base + |e|);
    case Some(n) =>
      var a, b := text[..n], text[n + 1..];
      assert text == a + ([NEWLINE] + b);
      var e, f := Encode(glyphs, a), Encode(glyphs, b);
      EncodeNewline(glyphs, a, b);
      SliceNewline(encoded, base, e, f);
      WrapFrom(glyphs, b, columns, encoded, base + |e| + 1);
      var rest := WrapLines(base + |e| + 1, Split(f), columns).value;
      CoversStart(encoded, rest, base + |e| + 1);
      SourceRun(glyphs, a, columns, encoded, base);
      SourceRejoin(glyphs, a, columns, base, rest);
      if columns >= 10 { SourceNarrow(glyphs, a, columns, base); }
      var rows := RowsOf(glyphs, a, columns, base);
      WrapMany(glyphs, a, columns, base, Split(f));
      RunCovers(encoded, rows, base, base + |e|, rest);
      RejoinLines(a, b, rest, base + |e|);
      if columns >= 10 { RowsNarrowAppend(rows, rest, columns); }
  }

  lemma RejoinLines(a: Text, b: Text, rest: seq<Line>, end: nat)
    requires |rest| > 0 && rest[0].start == end + 1
    ensures Prepend(a + Separator(rest, end), Ok(b)) == Ok(a + ([NEWLINE] + b))
  {
    AppendAssoc(a, [NEWLINE], b);
  }

  lemma RejoinNone(text: Text, end: nat)
    ensures Prepend(text + Separator([], end), RejoinDecoded([])) == Ok(text)
  {
    assert text + [] == text && text + [] + [] == text;
  }

  lemma WrapMany(glyphs: Glyphs, a: Text, columns: int, base: nat, lines: seq<Text>)
    ensures WrapLines(base, [Encode(glyphs, a)] + lines, columns)
         == PrependLines(RowsOf(glyphs, a, columns, base), WrapLines(base + |Encode(glyphs, a)| + 1, lines, columns))
  {
    hide Encode, Atoms, WrapLine, Tiles, Covers, Run, Decode, Chars;
    EncodedAtomsTile(glyphs, a, 0);
    var all := [Encode(glyphs, a)] + lines;
    assert all[0] == Encode(glyphs, a) && all[1..] == lines;
  }

  lemma WrapOne(glyphs: Glyphs, a: Text, columns: int, base: nat)
    ensures WrapLines(base, [Encode(glyphs, a)], columns) == Ok(RowsOf(glyphs, a, columns, base))
  {
    WrapMany(glyphs, a, columns, base, []);
    assert [Encode(glyphs, a)] + [] == [Encode(glyphs, a)];
    assert WrapLines(base + |Encode(glyphs, a)| + 1, [], columns) == Ok([]);
    PrependLinesFacts(RowsOf(glyphs, a, columns, base), [], Ok([]));
  }

  lemma CoversStart(encoded: Text, lines: seq<Line>, from: nat)
    requires Covers(encoded, lines, from)
    ensures |lines| > 0 && lines[0].start == from
  {
  }

  lemma SliceNewline(encoded: Text, base: nat, e: Text, f: Text)
    requires base <= |encoded| && encoded[base..] == e + ([NEWLINE] + f)
    ensures base + |e| < |encoded| && encoded[base..base + |e|] == e
    ensures encoded[base + |e|] == NEWLINE && encoded[base + |e| + 1..] == f
  {
    var s := encoded[base..];
    assert s[..|e|] == e && s[|e|] == NEWLINE && s[|e| + 1..] == f;
    assert encoded[base..base + |e|] == s[..|e|];
    assert encoded[base + |e| + 1..] == s[|e| + 1..];
  }

  /** Wrapping an encoded text loses nothing: the rows are its slices, adjacent or one newline apart; decoding
      every row by itself and rejoining gives the source text; and every row fits ten columns or more. */
  lemma WrapLossless(glyphs: Glyphs, text: Text, columns: int)
    ensures var r := Wrap(Encode(glyphs, text), columns);
      r.Ok? && Covers(Encode(glyphs, text), r.value, 0) && RejoinDecoded(r.value) == Ok(text)
      && (columns >= 10 ==> RowsNarrow(r.value, columns))
  {
    var encoded := Encode(glyphs, text);
    assert encoded[0..] == encoded;
    WrapFrom(glyphs, text, columns, encoded, 0);
  }

  // ----- No layout has fewer rows -----

  /** A layout gives every source line a way to break it; a line without atoms is one row in any layout. */
  ghost predicate IsLayout(layout: seq<seq<seq<Atom>>>, lines: seq<Text>, columns: int)
  {
    && |layout| == |lines|
    && forall i :: 0 <= i < |lines| ==>
         Atoms(lines[i], 0).Ok? && IsWrapping(layout[i], Atoms(lines[i], 0).value, columns)
  }

  function RowCount(layout: seq<seq<seq<Atom>>>): nat
  {
    if |layout| == 0 then 0 else (if |layout[0]| == 0 then 1 else |layout[0]|) + RowCount(layout[1..])
  }

  lemma {:induction false} LinesOptimal(base: nat, lines: seq<Text>, columns: int, layout: seq<seq<seq<Atom>>>)
    requires IsLayout(layout, lines, columns)
    ensures WrapLines(base, lines, columns).Ok? && |WrapLines(base, lines, columns).value| <= RowCount(layout)
    decreases |lines|
  {
    hide Atoms, Groups, IsWrapping;
    if |lines| > 0 {
      var atoms := Atoms(lines[0], 0).value;
      GreedyStaysAhead(atoms, columns, layout[0]);
      assert IsLayout(layout[1..], lines[1..], columns) by {
        forall i | 0 <= i < |lines[1..]|
          ensures Atoms(lines[1..][i], 0).Ok? && IsWrapping(layout[1..][i], Atoms(lines[1..][i], 0).value, columns)
        {
          assert lines[1..][i] == lines[i + 1] && layout[1..][i] == layout[i + 1];
        }
      }
      LinesOptimal(base + |lines[0]| + 1, lines[1..], columns, layout[1..]);
    }
  }

  /** Of all layouts that keep the newlines, break only between atoms and fit the columns, the wrapper's has the
      fewest rows. */
  lemma WrapOptimal(encoded: Text, columns: int, layout: seq<seq<seq<Atom>>>)
    requires IsLayout(layout, Split(encoded), columns)
    ensures Wrap(encoded, columns).Ok? && |Wrap(encoded, columns).value| <= RowCount(layout)
  {
    LinesOptimal(0, Split(encoded), columns, layout);
  }
}
