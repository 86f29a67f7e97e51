/** The PNG framing of a rendered page, with a reader of the same layout. */
module Png {
  import opened Json
  import opened Crc
  import opened Arithmetic

  const WORD_LIMIT: int := 0x1_0000_0000

  const SIGNATURE: seq<Byte> := [137, 80, 78, 71, 13, 10, 26, 10]
  const IHDR: seq<Byte> := [73, 72, 68, 82]
  const IDAT: seq<Byte> := [73, 68, 65, 84]
  const IEND: seq<Byte> := [73, 69, 78, 68]

  // ----- Big-endian words -----

  function Word(n: nat): (r: seq<Byte>)
    requires n < WORD_LIMIT
    ensures |r| == 4
  {
    [n / 256 / 256 / 256, n / 256 / 256 % 256, n / 256 % 256, n % 256]
  }

  function ReadWord(s: seq<Byte>): (n: nat)
    requires |s| >= 4
    ensures n < WORD_LIMIT
  {
    var a: int, b: int, c: int, d: int := s[0], s[1], s[2], s[3];
    ((a * 256 + b) * 256 + c) * 256 + d
  }

  lemma ReadWritten(n: nat)
    requires n < WORD_LIMIT
    ensures ReadWord(Word(n)) == n
  {
  }

  lemma WriteRead(s: seq<Byte>)
    requires |s| == 4
    ensures Word(ReadWord(s)) == s
  {
    var n := ReadWord(s);
    var a: int, b: int, c: int, d: int := s[0], s[1], s[2], s[3];
    assert n / 256 == (a * 256 + b) * 256 + c;
    assert n / 256 / 256 == a * 256 + b;
  }

  lemma ReadPrefix(s: seq<Byte>, t: seq<Byte>)
    requires |s| >= 4
    ensures ReadWord(s + t) == ReadWord(s) == ReadWord(s[..4])
  {
  }

  function CheckWord(bytes: seq<Byte>): (n: nat)
    ensures n < WORD_LIMIT
  {
    Checksum(bytes) as int
  }

  // ----- Chunks -----

  datatype Chunk = Chunk(kind: seq<Byte>, data: seq<Byte>)

  predicate Encodable(c: Chunk) { |c.kind| == 4 && |c.data| < WORD_LIMIT }

  /** Length, type, data and check value of a chunk (section 5.3 of the W3C PNG Specification). */
  function ChunkBytes(c: Chunk): (r: seq<Byte>)
    requires Encodable(c)
    ensures |r| == 12 + |c.data|
  {
    Word(|c.data|) + c.kind + c.data + Word(CheckWord(c.kind + c.data))
  }

  /** Reads one chunk and gives the bytes after it; refuses a chunk that is cut short or whose check value is
      wrong. */
  function ReadChunk(s: seq<Byte>): (r: Option<(Chunk, seq<Byte>)>)
    ensures r.Some? ==> Encodable(r.value.0)
  {
    if |s| < 12 || |s| < 12 + ReadWord(s) then None
    else
      var end := 8 + ReadWord(s);
      if ReadWord(s[end..]) != CheckWord(s[4..end]) then None
      else Some((Chunk(s[4..8], s[8..end]), s[end + 4..]))
  }

  lemma ChunkParts(c: Chunk, rest: seq<Byte>)
    requires Encodable(c)
    ensures var s, end := ChunkBytes(c) + rest, 8 + |c.data|;
      && |s| >= 12 + |c.data| && ReadWord(s) == |c.data|
      && s[4..8] == c.kind && s[8..end] == c.data && s[4..end] == c.kind + c.data
      && s[end..] == Word(CheckWord(c.kind + c.data)) + rest && s[end + 4..] == rest
  {
    hide CheckWord;
    var s, end := ChunkBytes(c) + rest, 8 + |c.data|;
    var tail := Word(CheckWord(c.kind + c.data)) + rest;
    assert s == Word(|c.data|) + (c.kind + c.data + tail);
    ReadWritten(|c.data|);
    assert s[4..] == c.kind + c.data + tail;
    assert s[4..8] == s[4..][..4] && s[8..end] == s[4..][4..end - 4] && s[4..end] == s[4..][..end - 4];
    assert s[end..] == s[4..][end - 4..] == tail;
    assert s[end + 4..] == tail[4..];
  }

  /** The reader recovers every chunk that was written, whatever follows it. */
  lemma ReadWrittenChunk(c: Chunk, rest: seq<Byte>)
    requires Encodable(c)
    ensures ReadChunk(ChunkBytes(c) + rest) == Some((c, rest))
  {
    hide CheckWord, ChunkBytes, ReadWord, Word;
    ChunkParts(c, rest);
    var n := CheckWord(c.kind + c.data);
    ReadWritten(n);
    ReadPrefix(Word(n), rest);
  }

  /** The reader accepts nothing else. */
  lemma ReadOnlyWritten(s: seq<Byte>)
    ensures ReadChunk(s).Some? ==> s == ChunkBytes(ReadChunk(s).value.0) + ReadChunk(s).value.1
  {
    hide CheckWord, ReadWord, Word;
    if ReadChunk(s).Some? {
      var end := 8 + ReadWord(s);
      ReadPrefix(s, []);
      ReadPrefix(s[end..], []);
      WriteRead(s[..4]);
      WriteRead(s[end..][..4]);
      assert s[4..end] == s[4..8] + s[8..end];
      assert s[end..][..4] == s[end..end + 4];
      assert s == s[..4] + s[4..8] + s[8..end] + s[end..end + 4] + s[end + 4..];
    }
  }

  lemma CheckDiffers(s: seq<Byte>, t: seq<Byte>)
    requires Checksum(s) != Checksum(t)
    ensures CheckWord(s) != CheckWord(t)
  {
    WordInjective(Checksum(s), Checksum(t));
  }

  lemma WordInjective(v: bv32, w: bv32)
    ensures v as int == w as int ==> v == w
  {
    assert (v as int) as bv32 == v && (w as int) as bv32 == w;
  }

  /** A chunk with one byte of its type or data changed is refused. */
  lemma ChangedByteRefused(c: Chunk, rest: seq<Byte>, k: nat, b: Byte)
    requires Encodable(c) && k < 4 + |c.data| && b != (c.kind + c.data)[k]
    ensures ReadChunk((ChunkBytes(c) + rest)[4 + k := b]) == None
  {
    hide CheckWord, ChunkBytes, ReadWord, Word, Checksum;
    var s, end := ChunkBytes(c) + rest, 8 + |c.data|;
    ChunkParts(c, rest);
    var body := c.kind + c.data;
    var t := s[4 + k := b];
    var changed := body[k := b];
    assert s[4..][k] == body[k] by { assert s[4..end][k] == s[4 + k]; }
    assert t[..4] == s[..4] && t[end..] == s[end..];
    assert t[4..end] == changed by { assert t[4..end] == s[4..end][k := b]; }
    ReadPrefix(s, []);
    ReadPrefix(t, []);
    ReadWritten(CheckWord(body));
    ReadPrefix(Word(CheckWord(body)), rest);
    DetectsChangedByte(body, changed, k);
    CheckDiffers(body, changed);
  }

  // ----- Buffers -----

  method CopyInto(source: seq<Byte>, target: array<Byte>, at: nat)
    requires at + |source| <= target.Length
    modifies target
    ensures target[..at] == old(target[..at])
    ensures target[at..at + |source|] == source
    ensures target[at + |source|..] == old(target[at + |source|..])
  {
    for i := 0 to |source|
      invariant forall k :: 0 <= k < target.Length ==>
        target[k] == if at <= k < at + i then source[k - at] else old(target[k])
    {
      target[at + i] := source[i];
    }
  }

  /** The writes of `pngChunk` into its buffer. */
  method FillChunk(kind: seq<Byte>, data: seq<Byte>, crc: nat) returns (chunk: array<Byte>)
    requires |kind| == 4 && |data| < WORD_LIMIT && crc < WORD_LIMIT
    ensures fresh(chunk) && chunk[..] == Word(|data|) + kind + data + Word(crc)
  {
    hide Word;
    var n := |data|;
    chunk := new Byte[12 + n](_ => 0);
    CopyInto(Word(n), chunk, 0);
    assert chunk[..4] == Word(n);
    CopyInto(kind, chunk, 4);
    assert chunk[..8] == Word(n) + kind;
    CopyInto(data, chunk, 8);
    assert chunk[..8 + n] == Word(n) + kind + data;
    CopyInto(Word(crc), chunk, 8 + n);
    assert chunk[..] == chunk[..8 + n] + chunk[8 + n..];
  }

  /** `pngChunk`; a length that does not fit 32 bits makes `writeUInt32BE` throw. */
  method PngChunk(checksums: Checksums, kind: seq<Byte>, data: seq<Byte>) returns (r: Result<seq<Byte>>)
    requires checksums.Valid() && |kind| == 4
    modifies checksums
    ensures checksums.Valid()
    ensures r == if |data| < WORD_LIMIT then Ok(ChunkBytes(Chunk(kind, data))) else Throws
  {
    hide Word, Checksum;
    if |data| >= WORD_LIMIT { return Throws; }
    var crc := checksums.Crc32(kind + data);
    var chunk := FillChunk(kind, data, crc as int);
    r := Ok(chunk[..]);
  }

  // ----- Scanlines -----

  /** Every row of pixels behind a zero filter byte. */
  function Scanlines(pixels: seq<Byte>, stride: nat, rows: nat): seq<Byte>
    requires |pixels| == rows * stride
    decreases rows
  {
    if rows == 0 then []
    else
      RowLength(stride, rows);
      [0] + pixels[..stride] + Scanlines(pixels[stride..], stride, rows - 1)
  }

  lemma RowLength(stride: nat, rows: nat)
    requires rows > 0
    ensures rows * stride == stride + (rows - 1) * stride
  {
    Distribute(rows - 1, 1, stride);
  }

  /** Takes the filter bytes off; refuses a row with another filter or the wrong length. */
  function Unfilter(s: seq<Byte>, stride: nat, rows: nat): Option<seq<Byte>>
    decreases rows
  {
    if rows == 0 then (if |s| == 0 then Some([]) else None)
    else if |s| < stride + 1 || s[0] != 0 then None
    else match Unfilter(s[stride + 1..], stride, rows - 1)
      case None => None
      case Some(rest) => Some(s[1..stride + 1] + rest)
  }

  lemma {:induction false} UnfilterScanlines(pixels: seq<Byte>, stride: nat, rows: nat)
    requires |pixels| == rows * stride
    ensures Unfilter(Scanlines(pixels, stride, rows), stride, rows) == Some(pixels)
    decreases rows
  {
    if rows > 0 {
      RowLength(stride, rows);
      UnfilterScanlines(pixels[stride..], stride, rows - 1);
      var s := Scanlines(pixels, stride, rows);
      assert s[1..stride + 1] == pixels[..stride];
      assert s[stride + 1..] == Scanlines(pixels[stride..], stride, rows - 1);
      assert pixels == pixels[..stride] + pixels[stride..];
    }
  }

  lemma {:induction false} ScanlinesSnoc(pixels: seq<Byte>, row: seq<Byte>, stride: nat, rows: nat)
    requires |pixels| == rows * stride && |row| == stride
    ensures |pixels + row| == (rows + 1) * stride
    ensures Scanlines(pixels + row, stride, rows + 1) == Scanlines(pixels, stride, rows) + ([0] + row)
    decreases rows
  {
    var all := pixels + row;
    RowLength(stride, rows + 1);
    if rows == 0 {
      assert all[..stride] == row && all[stride..] == [];
      assert [0] + row + [] == [] + ([0] + row);
    } else {
      RowLength(stride, rows);
      assert all[..stride] == pixels[..stride] && all[stride..] == pixels[stride..] + row;
      ScanlinesSnoc(pixels[stride..], row, stride, rows - 1);
    }
  }

  lemma {:induction false} ScanlinesLength(pixels: seq<Byte>, stride: nat, rows: nat)
    requires |pixels| == rows * stride
    ensures |Scanlines(pixels, stride, rows)| == rows * (stride + 1)
    decreases rows
  {
    if rows > 0 {
      RowLength(stride, rows);
      RowLength(stride + 1, rows);
      ScanlinesLength(pixels[stride..], stride, rows - 1);
    }
  }

  // ----- Whole images -----

  datatype Image = Image(width: nat, height: nat, pixels: seq<Byte>)

  /** Eight bits a channel, RGB, no interlacing. */
  function Header(width: nat, height: nat): (r: seq<Byte>)
    requires width < WORD_LIMIT && height < WORD_LIMIT
    ensures |r| == 13
  {
    Word(width) + Word(height) + [8, 2, 0, 0, 0]
  }

  /** What a viewer sees of a file with one data chunk (sections 5.2 and 11.2 of the W3C PNG Specification);
      `inflate` undoes the compression. */
  function ReadPng(file: seq<Byte>, inflate: seq<Byte> -> Option<seq<Byte>>): Option<Image>
  {
    if |file| < 8 || file[..8] != [137, 80, 78, 71, 13, 10, 26, 10] then None
    else match ReadChunk(file[8..])
      case None => None
      case Some((header, afterHeader)) =>
        if header.kind != [73, 72, 68, 82] || |header.data| != 13 || header.data[8..] != [8, 2, 0, 0, 0] then None
        else match ReadChunk(afterHeader)
          case None => None
          case Some((data, afterData)) =>
            if data.kind != [73, 68, 65, 84] then None
            else if ReadChunk(afterData) != Some((Chunk([73, 69, 78, 68], []), [])) then None
            else ReadPixels(ReadWord(header.data), ReadWord(header.data[4..]), inflate(data.data))
  }

  function ReadPixels(width: nat, height: nat, inflated: Option<seq<Byte>>): Option<Image>
  {
    match inflated
    case None => None
    case Some(scanlines) =>
      match Unfilter(scanlines, width * 3, height)
      case None => None
      case Some(pixels) => Some(Image(width, height, pixels))
  }

  /** The laws of a lossless compressor: decompression undoes it, and it at most doubles its input, give or take
      a header. */
  ghost predicate IsCodec(deflate: seq<Byte> -> seq<Byte>, inflate: seq<Byte> -> Option<seq<Byte>>)
  {
    forall s :: inflate(deflate(s)) == Some(s) && |deflate(s)| <= 2 * |s| + 64
  }

  /** The scanline loop of `encodePng`. */
  method FillScanlines(pixels: seq<Byte>, stride: nat, height: nat) returns (scanlines: array<Byte>)
    requires |pixels| == height * stride
    ensures fresh(scanlines) && scanlines[..] == Scanlines(pixels, stride, height)
  {
    hide Scanlines;
    scanlines := new Byte[height * (stride + 1)](_ => 0);
    assert pixels[..0] == [];
    NoScanlines(stride);
    for row := 0 to height
      invariant row * (stride + 1) <= scanlines.Length && row * stride <= |pixels|
      invariant scanlines[..row * (stride + 1)] == Scanlines(pixels[..row * stride], stride, row)
      invariant forall k :: row * (stride + 1) <= k < scanlines.Length ==> scanlines[k] == 0
    {
      var at, from := row * (stride + 1), row * stride;
      RowBounds(row, height, stride);
      RowBounds(row, height, stride + 1);
      var line := pixels[from..from + stride];
      ghost var before := scanlines[..];
      CopyInto(line, scanlines, at + 1);
      ScanRow(before, scanlines[..], at, line);
      ScanlinesSnoc(pixels[..from], line, stride, row);
      assert pixels[..from] + line == pixels[..from + stride];
    }
    assert pixels[..height * stride] == pixels;
    assert scanlines[..height * (stride + 1)] == scanlines[..];
  }

  lemma ScanRow(before: seq<Byte>, after: seq<Byte>, at: nat, line: seq<Byte>)
    requires |before| == |after| >= at + 1 + |line| && before[at] == 0
    requires after[..at + 1] == before[..at + 1] && after[at + 1..at + 1 + |line|] == line
    ensures after[..at + 1 + |line|] == before[..at] + ([0] + line)
  {
    assert after[..at + 1 + |line|] == after[..at + 1] + after[at + 1..at + 1 + |line|];
    assert before[..at + 1] == before[..at] + [0];
  }

  lemma NoScanlines(stride: nat)
    ensures Scanlines([], stride, 0) == []
  {
  }

  lemma RowBounds(row: nat, height: nat, stride: nat)
    requires row < height
    ensures (row + 1) * stride == row * stride + stride <= height * stride
  {
    Distribute(row, 1, stride);
    Monotone(row + 1, height, stride);
  }

  /** `encodePng`. */
  method EncodePng(checksums: Checksums, width: nat, height: nat, pixels: seq<Byte>,
      deflate: seq<Byte> -> seq<Byte>, ghost inflate: seq<Byte> -> Option<seq<Byte>>)
    returns (r: Result<seq<Byte>>)
    requires checksums.Valid() && width < WORD_LIMIT && height < WORD_LIMIT
    requires |pixels| == height * (width * 3)
    requires IsCodec(deflate, inflate)
    modifies checksums
    ensures checksums.Valid()
    ensures height <= 2048 && width <= 2048 ==> r.Ok?
    ensures r.Throws? <==> |deflate(Scanlines(pixels, width * 3, height))| >= WORD_LIMIT
    ensures r.Ok? ==> ReadPng(r.value, inflate) == Some(Image(width, height, pixels))
  {
    hide ReadPng, ChunkBytes, Word, Unfilter, Scanlines;
    var header := Header(width, height);
    var scanlines := FillScanlines(pixels, width * 3, height);
    var data := deflate(scanlines[..]);
    ScanlinesLength(pixels, width * 3, height);
    if height <= 2048 && width <= 2048 { SmallImage(width, height); }
    var first := PngChunk(checksums, IHDR, header);
    var second := PngChunk(checksums, IDAT, data);
    var last := PngChunk(checksums, IEND, []);
    if second.Throws? { return Throws; }
    r := Ok(SIGNATURE + (first.value + (second.value + last.value)));
    ReadEncoded(width, height, pixels, data, inflate);
  }

  lemma SmallImage(width: nat, height: nat)
    requires height <= 2048 && width <= 2048
    ensures 2 * (height * (width * 3 + 1)) + 64 < WORD_LIMIT
  {
    Monotone(height, 2048, width * 3 + 1);
  }

  lemma ReadEncoded(width: nat, height: nat, pixels: seq<Byte>, data: seq<Byte>,
      inflate: seq<Byte> -> Option<seq<Byte>>)
    requires width < WORD_LIMIT && height < WORD_LIMIT && |data| < WORD_LIMIT
    requires |pixels| == height * (width * 3)
    requires inflate(data) == Some(Scanlines(pixels, width * 3, height))
    ensures var file := SIGNATURE + (ChunkBytes(Chunk(IHDR, Header(width, height)))
              + (ChunkBytes(Chunk(IDAT, data)) + ChunkBytes(Chunk(IEND, []))));
      ReadPng(file, inflate) == Some(Image(width, height, pixels))
  {
    hide ChunkBytes, ReadChunk, Word, ReadWord, Unfilter, Scanlines;
    var header := Header(width, height);
    var first, second, last :=
      ChunkBytes(Chunk(IHDR, header)), ChunkBytes(Chunk(IDAT, data)), ChunkBytes(Chunk(IEND, []));
    var file := SIGNATURE + (first + (second + last));
    assert file[..8] == SIGNATURE && file[8..] == first + (second + last);
    ReadWrittenChunk(Chunk(IHDR, header), second + last);
    ReadWrittenChunk(Chunk(IDAT, data), last);
    assert last + [] == last;
    ReadWrittenChunk(Chunk(IEND, []), []);
    assert header[8..] == [8, 2, 0, 0, 0];
    assert header == Word(width) + (Word(height) + [8, 2, 0, 0, 0]) && header[4..] == Word(height) + [8, 2, 0, 0, 0];
    ReadPrefix(Word(width), Word(height) + [8, 2, 0, 0, 0]);
    ReadPrefix(Word(height), [8, 2, 0, 0, 0]);
    ReadWritten(width);
    ReadWritten(height);
    UnfilterScanlines(pixels, width * 3, height);
  }
}
