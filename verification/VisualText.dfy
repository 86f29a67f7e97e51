/** The text encoding of the visual context carrier: glyphs of the font stand for themselves, everything else
    is escaped in ASCII. */
module VisualText {
  import opened JsText
  import opened Json
  import opened CanonicalJson

  const NEWLINE: Unit := 10
  const LETTER_T: Unit := 0x74
  const LETTER_R: Unit := 0x72
  const LETTER_U: Unit := 0x75

  /** The code points for which the font has a glyph. */
  type Glyphs = int -> bool

  // ----- Characters -----

  /** One step of `for (const character of text)`: a surrogate pair or a single unit. */
  function HeadChar(text: Text): (c: Text)
    requires |text| > 0
    ensures 0 < |c| <= |text| && c == text[..|c|]
  {
    if StartsWithPair(text) then text[..2] else text[..1]
  }

  predicate IsChar(c: Text) { |c| == 1 || (|c| == 2 && StartsWithPair(c)) }

  function Chars(text: Text): (r: seq<Text>)
    ensures forall i :: 0 <= i < |r| ==> IsChar(r[i])
  {
    if |text| == 0 then [] else [HeadChar(text)] + Chars(text[|HeadChar(text)|..])
  }

  function Concat(texts: seq<Text>): Text
  {
    if |texts| == 0 then [] else texts[0] + Concat(texts[1..])
  }

  lemma {:induction false} ConcatAppend(a: seq<Text>, b: seq<Text>)
    ensures Concat(a + b) == Concat(a) + Concat(b)
  {
    if |a| == 0 {
      assert a + b == b;
    } else {
      ConcatAppend(a[1..], b);
      assert (a + b)[1..] == a[1..] + b;
      AppendAssoc(a[0], Concat(a[1..]), Concat(b));
    }
  }

  lemma {:induction false} CharsConcat(text: Text)
    ensures Concat(Chars(text)) == text
  {
    if |text| > 0 {
      var c := HeadChar(text);
      CharsConcat(text[|c|..]);
      assert text == c + text[|c|..];
      assert Chars(text)[1..] == Chars(text[|c|..]);
    }
  }

  /** `codePointAt(0)`. */
  function CodePoint(c: Text): (p: int)
    requires IsChar(c)
    ensures 0 <= p <= 0x10FFFF
  {
    var high: int := c[0];
    if |c| == 1 then high
    else
      var low: int := c[1];
      0x10000 + (high - 0xD800) * 0x400 + (low - 0xDC00)
  }

  /** `String.fromCodePoint`. */
  function FromCodePoint(p: int): (c: Text)
    requires 0 <= p <= 0x10FFFF
    ensures IsChar(c)
  {
    if p < 0x10000 then [p] else [0xD800 + (p - 0x10000) / 0x400, 0xDC00 + (p - 0x10000) % 0x400]
  }

  lemma CodePointRoundTrip(c: Text)
    requires IsChar(c)
    ensures FromCodePoint(CodePoint(c)) == c
  {
    if |c| == 2 {
      var x: int, y: int := c[0] - 0xD800, c[1] - 0xDC00;
      assert (x * 0x400 + y) / 0x400 == x && (x * 0x400 + y) % 0x400 == y;
    }
  }

  // ----- Hexadecimal -----

  function UpperDigit(d: int): Unit
    requires 0 <= d < 16
  {
    if d < 10 then 48 + d else 55 + d
  }

  predicate IsUpperDigit(u: Unit) { 48 <= u <= 57 || 65 <= u <= 70 }

  function DigitValue(u: Unit): int
    requires IsUpperDigit(u)
  {
    if u <= 57 then u - 48 else u - 55
  }

  /** `toString(16).toUpperCase()`. */
  function UpperHex(n: nat): (t: Text)
    ensures |t| > 0 && forall i :: 0 <= i < |t| ==> IsUpperDigit(t[i])
  {
    if n < 16 then [UpperDigit(n)] else UpperHex(n / 16) + [UpperDigit(n % 16)]
  }

  /** `Number.parseInt(hex, 16)`. */
  function ParseHex(t: Text): nat
    requires forall i :: 0 <= i < |t| ==> IsUpperDigit(t[i])
  {
    if |t| == 0 then 0 else 16 * ParseHex(t[..|t| - 1]) + DigitValue(t[|t| - 1])
  }

  lemma {:induction false} HexRoundTrip(n: nat)
    ensures ParseHex(UpperHex(n)) == n
  {
    var t := UpperHex(n);
    if n >= 16 {
      HexRoundTrip(n / 16);
      assert t[..|t| - 1] == UpperHex(n / 16);
    }
  }

  lemma {:induction false} HexLength(n: nat, width: nat)
    requires n < Power16(width) && width > 0
    ensures |UpperHex(n)| <= width
  {
    if n >= 16 { HexLength(n / 16, width - 1); }
  }

  // ----- Encoding -----

  function UnicodeEscape(p: nat): Text
  {
    [BACKSLASH, LETTER_U, OPEN_BRACE] + (UpperHex(p) + [CLOSE_BRACE])
  }

  function EncodedChar(glyphs: Glyphs, c: Text): Text
    requires IsChar(c)
  {
    if c == [NEWLINE] then [NEWLINE]
    else if c == [BACKSLASH] then [BACKSLASH, BACKSLASH]
    else if c == [9] then [BACKSLASH, LETTER_T]
    else if c == [13] then [BACKSLASH, LETTER_R]
    else if CodePoint(c) >= 32 && glyphs(CodePoint(c)) then c
    else UnicodeEscape(CodePoint(c))
  }

  function EncodedChars(glyphs: Glyphs, cs: seq<Text>): (r: seq<Text>)
    requires forall i :: 0 <= i < |cs| ==> IsChar(cs[i])
    ensures |r| == |cs|
  {
    seq(|cs|, i requires 0 <= i < |cs| => EncodedChar(glyphs, cs[i]))
  }

  function Encode(glyphs: Glyphs, text: Text): Text { Concat(EncodedChars(glyphs, Chars(text))) }

  /** `encodeVisualContextText`. */
  method EncodeVisualContextText(glyphs: Glyphs, text: Text) returns (encoded: Text)
    ensures encoded == Encode(glyphs, text)
  {
    encoded := [];
    var rest := text;
    while |rest| > 0
      invariant encoded + Encode(glyphs, rest) == Encode(glyphs, text)
      decreases |rest|
    {
      var c := HeadChar(rest);
      EncodeHead(glyphs, rest);
      encoded := encoded + EncodedChar(glyphs, c);
      rest := rest[|c|..];
    }
  }

  lemma EncodeHead(glyphs: Glyphs, text: Text)
    requires |text| > 0
    ensures Encode(glyphs, text) == EncodedChar(glyphs, HeadChar(text)) + Encode(glyphs, text[|HeadChar(text)|..])
  {
    var cs := Chars(text);
    var tail := Chars(text[|HeadChar(text)|..]);
    assert cs == [HeadChar(text)] + tail;
    assert EncodedChars(glyphs, cs)[1..] == EncodedChars(glyphs, tail);
  }

  /** A character that is written as it is: a newline, or any character with a glyph that is not a control character
      or the backslash. */
  predicate StandsForItself(glyphs: Glyphs, c: Text)
    requires IsChar(c)
  {
    c == ['\n' as int] || (c != ['\\' as int] && CodePoint(c) >= 32 && glyphs(CodePoint(c)))
  }

  /** What is written for a character, with the escapes spelled out. */
  lemma EncodedCharExactly(glyphs: Glyphs, c: Text)
    requires IsChar(c)
    ensures EncodedChar(glyphs, c) == c <==> StandsForItself(glyphs, c)
    ensures c == ['\\' as int] ==> EncodedChar(glyphs, c) == Lit("\\\\")
    ensures c == ['\t' as int] ==> EncodedChar(glyphs, c) == Lit("\\t")
    ensures c == ['\r' as int] ==> EncodedChar(glyphs, c) == Lit("\\r")
    ensures !StandsForItself(glyphs, c) && c !in [['\\' as int], ['\t' as int], ['\r' as int]] ==>
      EncodedChar(glyphs, c) == Lit("\\u{") + UpperHex(CodePoint(c)) + Lit("}")
  {
    assert |UnicodeEscape(CodePoint(c))| >= 5;
    AppendAssoc(Lit("\\u{"), UpperHex(CodePoint(c)), Lit("}"));
    assert Lit("\\u{") == [BACKSLASH, LETTER_U, OPEN_BRACE] && Lit("}") == [CLOSE_BRACE];
  }

  /** The hexadecimal digits are upper case and start with no zero, but for zero itself. */
  lemma {:induction false} UpperHexDigits(n: nat)
    ensures forall i :: 0 <= i < |UpperHex(n)| ==>
      '0' as int <= UpperHex(n)[i] <= '9' as int || 'A' as int <= UpperHex(n)[i] <= 'F' as int
    ensures UpperHex(n)[0] == '0' as int <==> n == 0
  {
    if n >= 16 { UpperHexDigits(n / 16); }
  }

  // ----- Decoding -----

  /** `indexOf`. */
  function IndexOf(t: Text, u: Unit): (r: Option<nat>)
    ensures r.Some? ==> r.value < |t| && t[r.value] == u && forall i :: 0 <= i < r.value ==> t[i] != u
  {
    if |t| == 0 then None
    else if t[0] == u then Some(0)
    else match IndexOf(t[1..], u)
      case None => None
      case Some(i) => Some(i + 1)
  }

  lemma {:induction false} IndexOfAppend(a: Text, u: Unit, b: Text)
    requires u !in a
    ensures IndexOf(a + ([u] + b), u) == Some(|a|)
  {
    if |a| > 0 {
      IndexOfAppend(a[1..], u, b);
      assert (a + ([u] + b))[1..] == a[1..] + ([u] + b);
    } else {
      assert a + ([u] + b) == [u] + b;
    }
  }

  /** What one step of the decoder reads: how many units it consumes and what it adds, or an invalid escape. */
  datatype Step = Step(length: nat, decoded: Text) | Invalid

  predicate StartsEscape(s: Text) { |s| >= 3 && s[1] == LETTER_U && s[2] == OPEN_BRACE }

  function DecodeStep(s: Text): (r: Step)
    requires |s| > 0
    ensures r.Step? ==> 0 < r.length <= |s|
  {
    if s[0] != BACKSLASH then Step(1, [s[0]])
    else if |s| >= 2 && s[1] == BACKSLASH then Step(2, [BACKSLASH])
    else if |s| >= 2 && s[1] == LETTER_T then Step(2, [9])
    else if |s| >= 2 && s[1] == LETTER_R then Step(2, [13])
    else if StartsEscape(s) then
      match IndexOf(s[3..], CLOSE_BRACE)
      case None => Invalid
      case Some(n) =>
        var hex := s[3..3 + n];
        if 1 <= |hex| <= 6 && (forall i :: 0 <= i < |hex| ==> IsUpperDigit(hex[i])) && ParseHex(hex) <= 0x10FFFF
        then Step(4 + n, FromCodePoint(ParseHex(hex)))
        else Invalid
    else Invalid
  }

  function Prepend(t: Text, r: Result<Text>): Result<Text>
  {
    match r
    case Ok(s) => Ok(t + s)
    case Throws => Throws
  }

  function Decode(s: Text): Result<Text>
    decreases |s|
  {
    if |s| == 0 then Ok([])
    else match DecodeStep(s)
      case Invalid => Throws
      case Step(n, t) => Prepend(t, Decode(s[n..]))
  }

  /** `decodeVisualContextText`. */
  method DecodeVisualContextText(encoded: Text) returns (r: Result<Text>)
    ensures r == Decode(encoded)
  {
    hide DecodeStep;
    var decoded: Text := [];
    var index := 0;
    PrependNothing(Decode(encoded));
    assert encoded[0..] == encoded;
    while index < |encoded|
      invariant 0 <= index <= |encoded|
      invariant Decode(encoded) == Prepend(decoded, Decode(encoded[index..]))
    {
      var step := DecodeStep(encoded[index..]);
      if step.Invalid? { return Throws; }
      assert encoded[index..][step.length..] == encoded[index + step.length..];
      PrependTwice(decoded, step.decoded, Decode(encoded[index + step.length..]));
      decoded := decoded + step.decoded;
      index := index + step.length;
    }
    assert decoded + [] == decoded;
    r := Ok(decoded);
  }

  lemma PrependNothing(r: Result<Text>)
    ensures Prepend([], r) == r
  {
    if r.Ok? { assert [] + r.value == r.value; }
  }

  lemma PrependTwice(a: Text, b: Text, r: Result<Text>)
    ensures Prepend(a, Prepend(b, r)) == Prepend(a + b, r)
  {
    if r.Ok? { AppendAssoc(a, b, r.value); }
  }

  // ----- Round trip -----

  lemma EscapeDecodes(p: nat, rest: Text)
    requires p <= 0x10FFFF
    ensures DecodeStep(UnicodeEscape(p) + rest) == Step(|UnicodeEscape(p)|, FromCodePoint(p))
  {
    var hex := UpperHex(p);
    var s := UnicodeEscape(p) + rest;
    assert s[3..] == hex + ([CLOSE_BRACE] + rest);
    IndexOfAppend(hex, CLOSE_BRACE, rest);
    assert s[3..3 + |hex|] == hex;
    assert Power16(6) == 0x1000000;
    HexLength(p, 6);
    HexRoundTrip(p);
  }

  /** The encoding of a character decodes to the character, whatever follows it. */
  lemma CharDecodes(glyphs: Glyphs, c: Text, rest: Text)
    requires IsChar(c)
    ensures Decode(EncodedChar(glyphs, c) + rest) == Prepend(c, Decode(rest))
  {
    var e := EncodedChar(glyphs, c);
    var s := e + rest;
    if e == c && c != [BACKSLASH] {
      assert s[1..] == c[1..] + rest;
      if |c| == 2 {
        assert c[1..] == [c[1]];
        assert ([c[1]] + rest)[1..] == rest;
        assert Decode([c[1]] + rest) == Prepend([c[1]], Decode(rest));
        assert c == [c[0]] + [c[1]];
        PrependTwice([c[0]], [c[1]], Decode(rest));
      } else {
        assert c[1..] + rest == rest;
        assert c == [s[0]];
      }
    } else if c == [BACKSLASH] || c == [9] || c == [13] {
      assert s[2..] == rest;
    } else {
      EscapeDecodes(CodePoint(c), rest);
      CodePointRoundTrip(c);
      assert s[|e|..] == rest;
    }
  }

  /** Any list of characters, encoded one by one, decodes to their concatenation. */
  lemma {:induction false} CharsDecode(glyphs: Glyphs, cs: seq<Text>)
    requires forall i :: 0 <= i < |cs| ==> IsChar(cs[i])
    ensures Decode(Concat(EncodedChars(glyphs, cs))) == Ok(Concat(cs))
  {
    if |cs| > 0 {
      CharsDecode(glyphs, cs[1..]);
      assert EncodedChars(glyphs, cs)[1..] == EncodedChars(glyphs, cs[1..]);
      CharDecodes(glyphs, cs[0], Concat(EncodedChars(glyphs, cs[1..])));
    }
  }

  /** Decoding the encoded text gives back every text, lone surrogates included, for every set of glyphs. */
  lemma TextRoundTrip(glyphs: Glyphs, text: Text)
    ensures Decode(Encode(glyphs, text)) == Ok(text)
  {
    CharsDecode(glyphs, Chars(text));
    CharsConcat(text);
  }

  // ----- Exactly which texts decode -----

  /** A piece of an encoded text and what it stands for. */
  datatype Token = Token(text: Text, decoded: Text)

  /** The hexadecimal digits of an escape. */
  predicate IsEscapeHex(hex: Text)
  {
    && 1 <= |hex| <= 6
    && (forall i :: 0 <= i < |hex| ==> '0' as int <= hex[i] <= '9' as int || 'A' as int <= hex[i] <= 'F' as int)
    && ParseHex(hex) <= 0x10FFFF
  }

  predicate IsEscape(k: Token, hex: Text)
  {
    IsEscapeHex(hex) && k.text == Lit("\\u{") + (hex + Lit("}")) && k.decoded == FromCodePoint(ParseHex(hex))
  }

  /** Any unit but the backslash, one of three short escapes, or the escape of a code point. */
  ghost predicate IsToken(k: Token)
  {
    || (|k.text| == 1 && k.text[0] != '\\' as int && k.decoded == k.text)
    || (k.text == Lit("\\\\") && k.decoded == ['\\' as int])
    || (k.text == Lit("\\t") && k.decoded == ['\t' as int])
    || (k.text == Lit("\\r") && k.decoded == ['\r' as int])
    || (exists hex :: IsEscape(k, hex))
  }

  ghost predicate AreTokens(tokens: seq<Token>) { forall i :: 0 <= i < |tokens| ==> IsToken(tokens[i]) }

  function TextsOf(tokens: seq<Token>): Text { if |tokens| == 0 then [] else tokens[0].text + TextsOf(tokens[1..]) }

  function Meaning(tokens: seq<Token>): Text
  {
    if |tokens| == 0 then [] else tokens[0].decoded + Meaning(tokens[1..])
  }

  lemma EscapeSpelled(hex: Text)
    ensures Lit("\\u{") + (hex + Lit("}")) == [BACKSLASH, LETTER_U, OPEN_BRACE] + (hex + [CLOSE_BRACE])
  {
    assert Lit("\\u{") == [BACKSLASH, LETTER_U, OPEN_BRACE] && Lit("}") == [CLOSE_BRACE];
  }

  lemma EscapeStep(k: Token, hex: Text, rest: Text)
    requires IsEscape(k, hex)
    ensures DecodeStep(k.text + rest) == Step(|k.text|, k.decoded)
  {
    EscapeSpelled(hex);
    var s := k.text + rest;
    assert s[3..] == hex + ([CLOSE_BRACE] + rest);
    IndexOfAppend(hex, CLOSE_BRACE, rest);
    assert s[3..3 + |hex|] == hex;
  }

  lemma TokenStep(k: Token, rest: Text)
    requires IsToken(k)
    ensures |k.text| > 0 && DecodeStep(k.text + rest) == Step(|k.text|, k.decoded)
  {
    var s := k.text + rest;
    if hex :| IsEscape(k, hex) {
      EscapeStep(k, hex, rest);
    } else {
      assert s[0] == k.text[0];
      assert |k.text| == 2 ==> s[1] == k.text[1];
    }
  }

  /** The front of a text that decodes is a token. */
  lemma StepToken(s: Text)
    requires |s| > 0 && DecodeStep(s).Step?
    ensures var step := DecodeStep(s); IsToken(Token(s[..step.length], step.decoded))
  {
    var step := DecodeStep(s);
    var k := Token(s[..step.length], step.decoded);
    if s[0] == BACKSLASH && s[1] !in [BACKSLASH, LETTER_T, LETTER_R] {
      var n := IndexOf(s[3..], CLOSE_BRACE).value;
      var hex := s[3..3 + n];
      EscapeSpelled(hex);
      assert k.text == [BACKSLASH, LETTER_U, OPEN_BRACE] + (hex + [CLOSE_BRACE]);
      assert IsEscape(k, hex);
    }
  }

  /** A text decodes only if it is made of tokens, and to what they stand for; */
  lemma {:induction false} DecodedTokens(s: Text) returns (tokens: seq<Token>)
    requires Decode(s).Ok?
    ensures AreTokens(tokens) && TextsOf(tokens) == s && Decode(s) == Ok(Meaning(tokens))
    decreases |s|
  {
    hide IsToken, DecodeStep;
    tokens := [];
    if |s| > 0 {
      var step := DecodeStep(s);
      StepToken(s);
      var rest := DecodedTokens(s[step.length..]);
      var k := Token(s[..step.length], step.decoded);
      tokens := [k] + rest;
      assert tokens[1..] == rest && s == k.text + s[step.length..];
    }
  }

  /** and every text that is made of tokens decodes to what they stand for. */
  lemma {:induction false} TokensDecode(tokens: seq<Token>)
    requires AreTokens(tokens)
    ensures Decode(TextsOf(tokens)) == Ok(Meaning(tokens))
  {
    hide IsToken, DecodeStep;
    if |tokens| > 0 {
      TokensDecode(tokens[1..]);
      TokenStep(tokens[0], TextsOf(tokens[1..]));
      var s := TextsOf(tokens);
      assert s[|tokens[0].text|..] == TextsOf(tokens[1..]);
    }
  }
}
