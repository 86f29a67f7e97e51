/** The bytes that are really hashed: `sha256Hex` hashes the UTF-8 form of a text, which keeps well-formed texts
    apart and writes every lone surrogate as U+FFFD. */
module Utf8 {
  import opened JsText
  import opened Json
  import opened CanonicalJson
  import opened VisualText
  import opened Crc
  import opened Hashing

  // ----- Encoding -----

  /** The UTF-8 form of a code point. */
  function ScalarBytes(p: int): (r: seq<Byte>)
    requires 0 <= p <= 0x10FFFF
    ensures |r| > 0
  {
    if p < 0x80 then [p]
    else if p < 0x800 then [0xC0 + p / 0x40, 0x80 + p % 0x40]
    else if p < 0x10000 then [0xE0 + p / 0x1000, 0x80 + p / 0x40 % 0x40, 0x80 + p % 0x40]
    else [0xF0 + p / 0x40000, 0x80 + p / 0x1000 % 0x40, 0x80 + p / 0x40 % 0x40, 0x80 + p % 0x40]
  }

  const REPLACEMENT: Text := [0xFFFD]

  predicate IsLone(c: Text) { |c| == 1 && (IsHigh(c[0]) || IsLow(c[0])) }

  /** A character as the encoder sees it. */
  function Seen(c: Text): (r: Text)
    requires IsChar(c)
    ensures IsChar(r) && !IsLone(r)
  {
    if IsLone(c) then REPLACEMENT else c
  }

  function Utf8Bytes(t: Text): seq<Byte>
  {
    if |t| == 0 then [] else ScalarBytes(CodePoint(Seen(HeadChar(t)))) + Utf8Bytes(t[|HeadChar(t)|..])
  }

  /** The text with every lone surrogate replaced. */
  function Replaced(t: Text): Text
  {
    if |t| == 0 then [] else Seen(HeadChar(t)) + Replaced(t[|HeadChar(t)|..])
  }

  /** No surrogate stands alone. */
  predicate IsWellFormed(t: Text)
  {
    |t| == 0 || (!IsLone(HeadChar(t)) && IsWellFormed(t[|HeadChar(t)|..]))
  }

  // ----- Reading UTF-8, from sections 3 and 4 of RFC 3629 -----

  predicate IsTail(b: Byte) { 0x80 <= b <= 0xBF }

  /** The code point at the front of some bytes, and the bytes after it. */
  function ReadScalar(s: seq<Byte>): (r: Option<(int, seq<Byte>)>)
    ensures r.Some? ==> |r.value.1| < |s| && 0 <= r.value.0 <= 0x10FFFF
  {
    if |s| >= 1 && s[0] <= 0x7F then Some((s[0], s[1..]))
    else if |s| >= 2 && 0xC2 <= s[0] <= 0xDF && IsTail(s[1]) then
      Some((Join6(s[0] - 0xC0, s[1]), s[2..]))
    else if |s| >= 3 && 0xE0 <= s[0] <= 0xEF && IsTail(s[1]) && IsTail(s[2]) then
      var p := Join6(Join6(s[0] - 0xE0, s[1]), s[2]);
      if p < 0x800 || 0xD800 <= p <= 0xDFFF then None else Some((p, s[3..]))
    else if |s| >= 4 && 0xF0 <= s[0] <= 0xF4 && IsTail(s[1]) && IsTail(s[2]) && IsTail(s[3]) then
      var p := Join6(Join6(Join6(s[0] - 0xF0, s[1]), s[2]), s[3]);
      if p < 0x10000 || 0x10FFFF < p then None else Some((p, s[4..]))
    else None
  }

  /** Six more bits. */
  function Join6(high: int, tail: Byte): int { high * 0x40 + (tail - 0x80) }

  /** The text of some bytes; a code point beyond the basic plane is a pair of units (section 2.1 of RFC 2781). */
  function ReadUtf8(s: seq<Byte>): Option<Text>
    decreases |s|
  {
    if |s| == 0 then Some([])
    else match ReadScalar(s)
      case None => None
      case Some((p, rest)) =>
        match ReadUtf8(rest)
        case None => None
        case Some(t) =>
          if p < 0x10000 then Some([p] + t)
          else Some([0xD800 + (p - 0x10000) / 0x400, 0xDC00 + (p - 0x10000) % 0x400] + t)
  }

  /** The form of a code point that is not a surrogate is read back, whatever follows it. */
  lemma ScalarRead(p: int, r: seq<Byte>)
    requires 0 <= p <= 0x10FFFF && !(0xD800 <= p <= 0xDFFF)
    ensures ReadScalar(ScalarBytes(p) + r) == Some((p, r))
  {
    if p < 0x800 {
      ShortRead(p, r);
    } else {
      LongRead(p, r);
    }
  }

  lemma ShortRead(p: int, r: seq<Byte>)
    requires 0 <= p < 0x800
    ensures ReadScalar(ScalarBytes(p) + r) == Some((p, r))
  {
    var s, n := ScalarBytes(p) + r, |ScalarBytes(p)|;
    assert s[n..] == r && s[0] == ScalarBytes(p)[0];
    if n == 2 { assert s[1] == 0x80 + p % 0x40; }
  }

  lemma LongRead(p: int, r: seq<Byte>)
    requires 0x800 <= p <= 0x10FFFF && !(0xD800 <= p <= 0xDFFF)
    ensures ReadScalar(ScalarBytes(p) + r) == Some((p, r))
  {
    var s, n := ScalarBytes(p) + r, |ScalarBytes(p)|;
    assert s[n..] == r && s[0] == ScalarBytes(p)[0] && s[1] == ScalarBytes(p)[1] && s[2] == ScalarBytes(p)[2];
    assert p / 0x40 / 0x40 == p / 0x1000;
    if n == 4 {
      assert s[3] == 0x80 + p % 0x40;
      assert p / 0x1000 / 0x40 == p / 0x40000;
    }
  }

  /** A reader of UTF-8 gets back the text with its lone surrogates replaced. */
  lemma {:induction false} Utf8Read(t: Text)
    ensures ReadUtf8(Utf8Bytes(t)) == Some(Replaced(t))
    decreases |t|
  {
    if |t| > 0 {
      var c, rest := Seen(HeadChar(t)), t[|HeadChar(t)|..];
      Utf8Read(rest);
      CodePointScalar(c);
      hide CodePoint, ReadScalar, ScalarBytes, Seen;
      ScalarRead(CodePoint(c), Utf8Bytes(rest));
    }
  }

  lemma CodePointScalar(c: Text)
    requires IsChar(c) && !IsLone(c)
    ensures var p := CodePoint(c);
      && !(0xD800 <= p <= 0xDFFF)
      && c == if p < 0x10000 then [p] else [0xD800 + (p - 0x10000) / 0x400, 0xDC00 + (p - 0x10000) % 0x400]
  {
    CodePointRoundTrip(c);
  }

  /** Texts have the same bytes exactly when they are the same after replacing lone surrogates. */
  lemma SameBytes(a: Text, b: Text)
    ensures Utf8Bytes(a) == Utf8Bytes(b) <==> Replaced(a) == Replaced(b)
  {
    Utf8Read(a);
    Utf8Read(b);
    if Replaced(a) == Replaced(b) { SameReplaced(a, b); }
  }

  lemma {:induction false} SameReplaced(a: Text, b: Text)
    requires Replaced(a) == Replaced(b)
    ensures Utf8Bytes(a) == Utf8Bytes(b)
    decreases |a|
  {
    hide ScalarBytes, CodePoint;
    if |a| > 0 && |b| > 0 {
      var x, y := a[|HeadChar(a)|..], b[|HeadChar(b)|..];
      SameHead(Seen(HeadChar(a)), Seen(HeadChar(b)), Replaced(x), Replaced(y));
      SameReplaced(x, y);
    }
  }

  /** Characters that are not lone surrogates can be told from what follows them. */
  lemma SameHead(c: Text, d: Text, r: Text, s: Text)
    requires IsChar(c) && IsChar(d) && !IsLone(c) && !IsLone(d) && c + r == d + s
    ensures c == d && r == s
  {
    assert c[0] == (c + r)[0] && d[0] == (d + s)[0];
    AppendInjective(c, d, r, s);
  }

  lemma {:induction false} WellFormedKept(t: Text)
    requires IsWellFormed(t)
    ensures Replaced(t) == t
  {
    if |t| > 0 {
      var c := HeadChar(t);
      var rest := t[|c|..];
      WellFormedKept(rest);
      assert Seen(c) == c;
      assert t == c + rest;
    }
  }

  /** UTF-8 keeps well-formed texts apart. */
  lemma Utf8Injective(a: Text, b: Text)
    requires IsWellFormed(a) && IsWellFormed(b) && Utf8Bytes(a) == Utf8Bytes(b)
    ensures a == b
  {
    SameBytes(a, b);
    WellFormedKept(a);
    WellFormedKept(b);
  }

  // ----- Canonical texts are well formed -----

  lemma {:induction false} WellFormedAppend(a: Text, b: Text)
    requires IsWellFormed(a) && IsWellFormed(b)
    ensures IsWellFormed(a + b)
    decreases |a|
  {
    if |a| == 0 {
      assert a + b == b;
    } else {
      var c := HeadChar(a);
      assert HeadChar(a + b) == c;
      assert (a + b)[|c|..] == a[|c|..] + b;
      WellFormedAppend(a[|c|..], b);
    }
  }

  predicate IsPlain(t: Text) { forall i :: 0 <= i < |t| ==> !IsHigh(t[i]) && !IsLow(t[i]) }

  lemma {:induction false} PlainWellFormed(t: Text)
    requires IsPlain(t)
    ensures IsWellFormed(t)
  {
    if |t| > 0 { PlainWellFormed(t[1..]); }
  }

  lemma PlainAppend(a: Text, b: Text)
    requires IsPlain(a) && IsPlain(b)
    ensures IsPlain(a + b)
  {
  }

  lemma LitPlain(s: string)
    requires forall i :: 0 <= i < |s| ==> s[i] < 128 as char
    ensures IsPlain(Lit(s))
  {
  }

  lemma {:induction false} HexPlain(n: nat, width: nat)
    ensures IsPlain(Hex(n, width))
  {
    if width > 0 {
      HexPlain(n / 16, width - 1);
      PlainAppend(Hex(n / 16, width - 1), [HexDigit(n % 16)]);
    }
  }

  lemma QuoteUnitPlain(u: Unit)
    ensures IsPlain(QuoteUnit(u))
  {
    HexPlain(u, 4);
  }

  lemma {:induction false} QuoteBodyWellFormed(s: Text)
    ensures IsWellFormed(QuoteBody(s))
  {
    if |s| > 0 {
      if StartsWithPair(s) {
        QuoteBodyWellFormed(s[2..]);
        WellFormedAppend(s[..2], QuoteBody(s[2..]));
      } else {
        QuoteBodyWellFormed(s[1..]);
        QuoteUnitPlain(s[0]);
        PlainWellFormed(QuoteUnit(s[0]));
        WellFormedAppend(QuoteUnit(s[0]), QuoteBody(s[1..]));
      }
    }
  }

  lemma Surround(open: Unit, t: Text, close: Unit)
    requires IsWellFormed(t) && IsPlain([open]) && IsPlain([close])
    ensures IsWellFormed([open] + t + [close])
  {
    PlainWellFormed([open]);
    PlainWellFormed([close]);
    WellFormedAppend([open], t);
    WellFormedAppend([open] + t, [close]);
  }

  lemma {:induction false} JoinWellFormed(texts: seq<Text>)
    requires forall i :: 0 <= i < |texts| ==> IsWellFormed(texts[i])
    ensures IsWellFormed(Join(texts))
  {
    if |texts| > 1 {
      JoinWellFormed(texts[1..]);
      PlainWellFormed([COMMA]);
      WellFormedAppend(texts[0], [COMMA]);
      WellFormedAppend(texts[0] + [COMMA], Join(texts[1..]));
    }
  }

  lemma {:induction false} PrintWellFormed(v: Json)
    ensures IsWellFormed(Print(v))
    decreases v, 1
  {
    hide IsWellFormed, Join;
    match v
    case Null => LitPlain("null"); PlainWellFormed(Print(v));
    case Bool(b) => LitPlain("true"); LitPlain("false"); PlainWellFormed(Print(v));
    case Num(n) => PlainWellFormed(Print(v));
    case Str(s) =>
      QuoteBodyWellFormed(s);
      Surround(QUOTE, QuoteBody(s), QUOTE);
    case Arr(items) =>
      forall i | 0 <= i < |items| ensures IsWellFormed(PrintItems(items)[i]) { PrintWellFormed(items[i]); }
      JoinWellFormed(PrintItems(items));
      Surround(OPEN_BRACKET, Join(PrintItems(items)), CLOSE_BRACKET);
    case Obj(fields) =>
      forall i | 0 <= i < |fields| ensures IsWellFormed(PrintFields(fields)[i]) { FieldWellFormed(fields[i]); }
      JoinWellFormed(PrintFields(fields));
      Surround(OPEN_BRACE, Join(PrintFields(fields)), CLOSE_BRACE);
  }

  lemma {:induction false} FieldWellFormed(f: Field)
    ensures IsWellFormed(PrintField(f))
    decreases f, 0
  {
    hide IsWellFormed;
    QuoteBodyWellFormed(f.key);
    Surround(QUOTE, QuoteBody(f.key), QUOTE);
    PrintWellFormed(f.value);
    PlainWellFormed([COLON]);
    WellFormedAppend(Quote(f.key), [COLON]);
    WellFormedAppend(Quote(f.key) + [COLON], Print(f.value));
  }

  /** The canonical bytes of two values are the same exactly when the values are equal up to key order. */
  lemma CanonicalBytes(v: Json, w: Json)
    requires WellFormed(v) && WellFormed(w)
    ensures Utf8Bytes(Canonicalize(v)) == Utf8Bytes(Canonicalize(w)) <==> JsonEqual(v, w)
  {
    hide Utf8Bytes, IsWellFormed, Print, WellFormed, JsonEqual;
    CanonicalInjective(v, w);
    PrintWellFormed(Norm(v));
    PrintWellFormed(Norm(w));
    if Utf8Bytes(Canonicalize(v)) == Utf8Bytes(Canonicalize(w)) { Utf8Injective(Canonicalize(v), Canonicalize(w)); }
  }

  // ----- Hashing bytes -----

  /** `sha256Hex` of a text, from a hash of bytes. */
  function TextHash(hash: ByteHash): HashFn { t => hash(Utf8Bytes(t)) }

  type ByteHash = seq<Byte> -> Digest

  /** The byte strings hashed for some texts. */
  ghost function BytesOf(texts: set<Text>): set<seq<Byte>> { set t | t in texts :: Utf8Bytes(t) }

  /** No two byte strings of a finite set share a digest. */
  ghost predicate BytesCollisionFree(hash: ByteHash, strings: set<seq<Byte>>)
  {
    forall x, y :: x in strings && y in strings && hash(x) == hash(y) ==> x == y
  }

  /** A hash of bytes without collisions on the bytes of some texts has none on the texts, if they are well
      formed. */
  lemma WellFormedCollisionFree(hash: ByteHash, texts: set<Text>)
    requires forall t :: t in texts ==> IsWellFormed(t)
    requires BytesCollisionFree(hash, BytesOf(texts))
    ensures CollisionFree(TextHash(hash), texts)
  {
    hide Utf8Bytes, IsWellFormed;
    forall a, b | a in texts && b in texts && TextHash(hash)(a) == TextHash(hash)(b) ensures a == b {
      assert Utf8Bytes(a) in BytesOf(texts) && Utf8Bytes(b) in BytesOf(texts);
      Utf8Injective(a, b);
    }
  }

  // ----- Replacing lone surrogates -----

  lemma {:induction false} ReplacedWellFormed(t: Text)
    ensures IsWellFormed(Replaced(t))
  {
    if |t| > 0 {
      var c := Seen(HeadChar(t));
      var rest := t[|HeadChar(t)|..];
      ReplacedWellFormed(rest);
      assert HeadChar(c) == c && c[|c|..] == [] && IsWellFormed(c);
      WellFormedAppend(c, Replaced(rest));
    }
  }

  /** A text and its replacement have the same bytes, and replacing again changes nothing. */
  lemma ReplacedBytes(t: Text)
    ensures Replaced(Replaced(t)) == Replaced(t) && Utf8Bytes(Replaced(t)) == Utf8Bytes(t)
  {
    hide Utf8Bytes, Replaced;
    ReplacedWellFormed(t);
    WellFormedKept(Replaced(t));
    SameBytes(Replaced(t), t);
  }

  lemma {:induction false} ReplacedAfter(a: Text, b: Text)
    requires IsPlain(a)
    ensures Replaced(a + b) == a + Replaced(b)
  {
    if |a| == 0 {
      assert a + b == b;
    } else {
      ReplacedAfter(a[1..], b);
      assert (a + b)[1..] == a[1..] + b && HeadChar(a + b) == [a[0]];
      assert a == [a[0]] + a[1..];
      AppendAssoc([a[0]], a[1..], Replaced(b));
    }
  }
}
