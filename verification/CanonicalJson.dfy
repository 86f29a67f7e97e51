/** The canonical JSON printer of the core package, and the unique readability of its output. */
module CanonicalJson {
  import opened JsText
  import opened Sorting
  import opened Json
  import opened JsonReader

  const QUOTE: Unit := 0x22
  const COMMA: Unit := 0x2C
  const MINUS: Unit := 0x2D
  const COLON: Unit := 0x3A
  const OPEN_BRACKET: Unit := 0x5B
  const BACKSLASH: Unit := 0x5C
  const CLOSE_BRACKET: Unit := 0x5D
  const OPEN_BRACE: Unit := 0x7B
  const CLOSE_BRACE: Unit := 0x7D

  // ----- Numbers -----

  predicate IsDigit(u: Unit) { 48 <= u <= 57 }

  function Digits(n: nat): (t: Text)
    ensures |t| > 0 && forall i :: 0 <= i < |t| ==> IsDigit(t[i])
  {
    if n < 10 then [48 + n] else Digits(n / 10) + [48 + n % 10]
  }

  function Decimal(n: int): Text
  {
    if n < 0 then [MINUS] + Digits(-n) else Digits(n)
  }

  lemma {:induction false} DigitsReadOn(n: nat, r: Text)
    ensures ReadDigits(0, Digits(n) + r) == ReadDigits(n, r)
  {
    if n >= 10 {
      var last := [48 + n % 10];
      AppendAssoc(Digits(n / 10), last, r);
      DigitsReadOn(n / 10, last + r);
      assert (last + r)[1..] == r;
    } else {
      assert (Digits(n) + r)[1..] == r;
    }
  }

  lemma {:induction false} DigitsHead(n: nat)
    ensures Digits(n)[0] == 48 <==> n == 0
  {
    if n >= 10 { DigitsHead(n / 10); }
  }

  /** What follows a number in canonical JSON is never a digit. */
  ghost predicate Delimited(r: Text) { |r| > 0 ==> !IsDigit(r[0]) }

  lemma DigitsRead(n: nat, r: Text)
    requires Delimited(r)
    ensures ReadNatural(Digits(n) + r) == Some(Reading(n, r))
  {
    var t := Digits(n) + r;
    DigitsHead(n);
    if n == 0 {
      assert t[1..] == r;
    } else {
      DigitsReadOn(n, r);
      assert ReadDigits(0, t) == ReadDigits(t[0] - 48, t[1..]);
    }
  }

  /** A printed integer is read back, before anything that is not a digit. */
  lemma DecimalRead(n: int, r: Text)
    requires Delimited(r)
    ensures ReadInteger(Decimal(n) + r) == Some(Reading(n, r))
  {
    hide Digits, ReadNatural;
    if n < 0 {
      DigitsRead(-n, r);
      assert (Decimal(n) + r)[1..] == Digits(-n) + r;
    } else {
      DigitsRead(n, r);
    }
  }

  // ----- Strings: JSON.stringify, with the escapes of section 7 of RFC 8259 -----

  function HexDigit(d: int): Unit
    requires 0 <= d < 16
  {
    if d < 10 then 48 + d else 87 + d
  }

  /** The low `width` hexadecimal digits of a number, in lower case. */
  function Hex(n: nat, width: nat): (t: Text)
    ensures |t| == width
    ensures forall i :: 0 <= i < |t| ==> IsDigit(t[i]) || 'a' as int <= t[i] <= 'f' as int
  {
    if width == 0 then [] else Hex(n / 16, width - 1) + [HexDigit(n % 16)]
  }

  function Power16(width: nat): nat
  {
    if width == 0 then 1 else 16 * Power16(width - 1)
  }

  lemma {:induction false} HexRead(n: nat, width: nat)
    requires n < Power16(width)
    ensures ReadHex(Hex(n, width)) == Some(n)
  {
    if width > 0 {
      HexRead(n / 16, width - 1);
      assert Hex(n, width)[..width - 1] == Hex(n / 16, width - 1);
    }
  }

  /** The letter after the backslash for the units that have a two-unit escape, else 0. */
  function ShortEscape(u: Unit): Unit
  {
    if u == 0x22 then 0x22
    else if u == 0x5C then 0x5C
    else if u == 0x08 then 0x62
    else if u == 0x09 then 0x74
    else if u == 0x0A then 0x6E
    else if u == 0x0C then 0x66
    else if u == 0x0D then 0x72
    else 0
  }

  /** One unit that is not half of a surrogate pair. */
  function QuoteUnit(u: Unit): (t: Text)
    ensures |t| > 0
  {
    if ShortEscape(u) != 0 then [BACKSLASH, ShortEscape(u)]
    else if u < 0x20 || IsHigh(u) || IsLow(u) then
      [BACKSLASH, 0x75] + Hex(u, 4)
    else [u]
  }

  function QuoteBody(s: Text): Text
  {
    if |s| == 0 then []
    else if StartsWithPair(s) then s[..2] + QuoteBody(s[2..])
    else QuoteUnit(s[0]) + QuoteBody(s[1..])
  }

  /** `JSON.stringify` of a string. */
  function Quote(s: Text): Text
  {
    [QUOTE] + QuoteBody(s) + [QUOTE]
  }

  lemma ShortEscapeRead(u: Unit, r: Text)
    requires ShortEscape(u) != 0
    ensures ReadEscape([BACKSLASH, ShortEscape(u)] + r) == Some(Reading(u, r))
  {
    var t := [BACKSLASH, ShortEscape(u)] + r;
    assert t[0] == BACKSLASH && t[1] == ShortEscape(u) && t[2..] == r;
  }

  lemma HexEscapeRead(u: Unit, r: Text)
    ensures ReadEscape([BACKSLASH, 0x75] + Hex(u, 4) + r) == Some(Reading(u, r))
  {
    hide Hex, ReadHex;
    var t := [BACKSLASH, 0x75] + Hex(u, 4) + r;
    assert t[0] == BACKSLASH && t[1] == 0x75 && t[2..6] == Hex(u, 4) && t[6..] == r;
    assert Power16(4) == 0x10000;
    HexRead(u, 4);
  }

  lemma QuoteUnitRead(u: Unit, r: Text)
    ensures ReadChars(QuoteUnit(u) + r) == Prefix([u], ReadChars(r))
  {
    hide ReadEscape, Hex;
    var t := QuoteUnit(u) + r;
    if ShortEscape(u) != 0 {
      ShortEscapeRead(u, r);
    } else if |QuoteUnit(u)| > 1 {
      HexEscapeRead(u, r);
    } else {
      assert t[..1] == [u] && t[1..] == r;
    }
  }

  lemma CloseRead(r: Text)
    ensures ReadChars([QUOTE] + r) == Some(Reading([], r))
  {
    assert ([QUOTE] + r)[1..] == r;
  }

  lemma PairRead(pair: Text, r: Text)
    requires |pair| == 2 && StartsWithPair(pair)
    ensures ReadChars(pair + r) == Prefix(pair, ReadChars(r))
  {
    assert (pair + r)[..2] == pair && (pair + r)[2..] == r;
  }

  lemma {:induction false} QuoteBodyRead(s: Text, r: Text)
    ensures ReadChars(QuoteBody(s) + ([QUOTE] + r)) == Some(Reading(s, r))
  {
    hide ReadChars, QuoteUnit;
    var close := [QUOTE] + r;
    if |s| == 0 {
      CloseRead(r);
      assert QuoteBody(s) + close == close;
    } else if StartsWithPair(s) {
      QuoteBodyRead(s[2..], r);
      AppendAssoc(s[..2], QuoteBody(s[2..]), close);
      PairRead(s[..2], QuoteBody(s[2..]) + close);
      assert s == s[..2] + s[2..];
    } else {
      QuoteBodyRead(s[1..], r);
      AppendAssoc(QuoteUnit(s[0]), QuoteBody(s[1..]), close);
      QuoteUnitRead(s[0], QuoteBody(s[1..]) + close);
      assert s == [s[0]] + s[1..];
    }
  }

  /** What `JSON.stringify` makes of a string is read back to the string. */
  lemma QuoteRead(s: Text, r: Text)
    ensures Starts(Quote(s) + r, "\"") && ReadChars((Quote(s) + r)[1..]) == Some(Reading(s, r))
  {
    assert (Quote(s) + r)[1..] == QuoteBody(s) + ([QUOTE] + r);
    QuoteBodyRead(s, r);
  }

  // ----- Values -----

  /** `texts.join(',')`. */
  function Join(texts: seq<Text>): Text
  {
    if |texts| == 0 then []
    else if |texts| == 1 then texts[0]
    else texts[0] + [COMMA] + Join(texts[1..])
  }

  /** The text of a value whose keys are printed in the order in which they stand. */
  function Print(v: Json): Text
    decreases v, 1
  {
    match v
    case Null => Lit("null")
    case Bool(b) => if b then Lit("true") else Lit("false")
    case Num(n) => Decimal(n)
    case Str(s) => Quote(s)
    case Arr(items) => [OPEN_BRACKET] + Join(PrintItems(items)) + [CLOSE_BRACKET]
    case Obj(fields) => [OPEN_BRACE] + Join(PrintFields(fields)) + [CLOSE_BRACE]
  }

  function PrintItems(items: seq<Json>): (r: seq<Text>)
    ensures |r| == |items|
    decreases items, 0
  {
    seq(|items|, i requires 0 <= i < |items| => Print(items[i]))
  }

  function PrintField(f: Field): Text
    decreases f, 0
  {
    Quote(f.key) + [COLON] + Print(f.value)
  }

  function PrintFields(fields: seq<Field>): (r: seq<Text>)
    ensures |r| == |fields|
    decreases fields, 0
  {
    seq(|fields|, i requires 0 <= i < |fields| => PrintField(fields[i]))
  }

  /** `canonicalize`: the keys of every object are printed in sorted order. */
  function Canonicalize(v: Json): Text
  {
    Print(Norm(v))
  }

  /** `String(value)`. */
  function ToText(v: Json): Text
    decreases v, 1
  {
    match v
    case Null => Lit("null")
    case Bool(b) => if b then Lit("true") else Lit("false")
    case Num(n) => Decimal(n)
    case Str(s) => s
    case Arr(items) => Join(ToTexts(items))
    case Obj(_) => Lit("[object Object]")
  }

  /** `Array.prototype.join` writes null items as empty texts. */
  function ToTexts(items: seq<Json>): seq<Text>
    decreases items, 0
  {
    seq(|items|, i requires 0 <= i < |items| => if items[i].Null? then [] else ToText(items[i]))
  }

  /** A text stands for itself, any other scalar for its JSON text, and an array for its items with commas between
      them, where null stands for nothing. */
  lemma ToTextMeaning(v: Json)
    ensures v.Str? ==> ToText(v) == v.s
    ensures v.Null? || v.Bool? || v.Num? ==> ToText(v) == Canonicalize(v)
    ensures v.Arr? && |v.items| == 0 ==> ToText(v) == []
    ensures v.Arr? && |v.items| > 0 ==>
      ToText(v) == (if v.items[0].Null? then [] else ToText(v.items[0]))
                   + (if |v.items| == 1 then [] else [',' as int] + ToText(Arr(v.items[1..])))
    ensures v.Obj? ==> ToText(v) == Lit("[object Object]")
  {
    if v.Arr? && |v.items| > 0 {
      var texts := ToTexts(v.items);
      assert texts[1..] == ToTexts(v.items[1..]);
      assert texts[0] + [] == texts[0];
      if |v.items| > 1 { AppendAssoc(texts[0], [COMMA], Join(texts[1..])); }
    }
  }

  // ----- Reading what was printed -----

  /** What follows the first of a list of items: the closing unit, or a comma and the others. */
  function ItemTail(items: seq<Json>, r: Text): Text
  {
    if |items| == 0 then [CLOSE_BRACKET] + r else [COMMA] + (Join(PrintItems(items)) + ([CLOSE_BRACKET] + r))
  }

  function FieldTail(fields: seq<Field>, r: Text): Text
  {
    if |fields| == 0 then [CLOSE_BRACE] + r else [COMMA] + (Join(PrintFields(fields)) + ([CLOSE_BRACE] + r))
  }

  lemma JoinTail(texts: seq<Text>, close: Text)
    requires |texts| > 0
    ensures Join(texts) + close
         == texts[0] + (if |texts| == 1 then close else [COMMA] + (Join(texts[1..]) + close))
  {
    if |texts| > 1 {
      var rest := Join(texts[1..]);
      assert Join(texts) == texts[0] + [COMMA] + rest;
      hide Join;
      AppendAssoc(texts[0] + [COMMA], rest, close);
      AppendAssoc(texts[0], [COMMA], rest + close);
    }
  }

  lemma JoinItems(items: seq<Json>, r: Text)
    requires |items| > 0
    ensures Join(PrintItems(items)) + ([CLOSE_BRACKET] + r) == Print(items[0]) + ItemTail(items[1..], r)
  {
    hide Join, Print, PrintField, Quote;
    JoinTail(PrintItems(items), [CLOSE_BRACKET] + r);
    assert PrintItems(items)[1..] == PrintItems(items[1..]);
  }

  lemma JoinFields(fields: seq<Field>, r: Text)
    requires |fields| > 0
    ensures Join(PrintFields(fields)) + ([CLOSE_BRACE] + r) == PrintField(fields[0]) + FieldTail(fields[1..], r)
  {
    hide Join, Print, PrintField, Quote;
    JoinTail(PrintFields(fields), [CLOSE_BRACE] + r);
    assert PrintFields(fields)[1..] == PrintFields(fields[1..]);
  }

  lemma PrintHead(v: Json)
    ensures |Print(v)| > 0 && Print(v)[0] != CLOSE_BRACKET
  {
  }

  lemma Enclosed(open: Unit, body: Text, close: Unit, r: Text)
    ensures [open] + body + [close] + r == [open] + (body + ([close] + r))
  {
  }

  /** A printed value is read back, whatever follows it. */
  lemma {:induction false} PrintRead(v: Json, r: Text)
    requires Delimited(r)
    ensures ReadValue(Print(v) + r) == Some(Reading(v, r))
    decreases v, 1
  {
    match v
    case Arr(items) =>
      if |items| > 0 { ItemsRead(items, r); }
      ArrayRead(items, r);
    case Obj(fields) =>
      if |fields| > 0 { FieldsRead(fields, r); }
      ObjectRead(fields, r);
    case Num(n) => NumRead(n, r);
    case Str(s) => StrRead(s, r);
    case _ => LiteralRead(v, r);
  }

  lemma NumRead(n: int, r: Text)
    requires Delimited(r)
    ensures ReadValue(Decimal(n) + r) == Some(Reading(Num(n), r))
  {
    hide Decimal, ReadInteger, ReadChars, ReadItems, ReadFields, Starts;
    DecimalHead(n);
    AppendHead(Decimal(n), r);
    DecimalRead(n, r);
  }

  lemma StrRead(s: Text, r: Text)
    ensures ReadValue(Quote(s) + r) == Some(Reading(Str(s), r))
  {
    hide Quote, ReadInteger, ReadChars, ReadItems, ReadFields, Starts;
    QuoteRead(s, r);
  }

  lemma DecimalHead(n: int)
    ensures |Decimal(n)| > 0 && (Decimal(n)[0] == MINUS || IsDigit(Decimal(n)[0]))
  {
  }

  lemma LiteralRead(v: Json, r: Text)
    requires v.Null? || v.Bool?
    ensures ReadValue(Print(v) + r) == Some(Reading(v, r))
  {
    var t := Print(v) + r;
    assert t[0] == Print(v)[0] && t[|Print(v)|..] == r;
    assert Starts(t, if v.Null? then "null" else if v.b then "true" else "false");
  }

  lemma ArrayRead(items: seq<Json>, r: Text)
    requires |items| > 0 ==> ReadItems(Join(PrintItems(items)) + ([CLOSE_BRACKET] + r)) == Some(Reading(items, r))
    ensures ReadValue(Print(Arr(items)) + r) == Some(Reading(Arr(items), r))
  {
    hide Join, ReadItems, ReadFields, ReadInteger, ReadChars;
    var body := Join(PrintItems(items)) + ([CLOSE_BRACKET] + r);
    var t := [OPEN_BRACKET] + body;
    Enclosed(OPEN_BRACKET, Join(PrintItems(items)), CLOSE_BRACKET, r);
    if |items| == 0 {
      NoneJoined();
      assert t[2..] == r;
    } else {
      JoinItems(items, r);
      PrintHead(items[0]);
      assert t[1..] == body && t[1] == Print(items[0])[0];
    }
  }

  lemma ObjectRead(fields: seq<Field>, r: Text)
    requires |fields| > 0 ==> ReadFields(Join(PrintFields(fields)) + ([CLOSE_BRACE] + r)) == Some(Reading(fields, r))
    ensures ReadValue(Print(Obj(fields)) + r) == Some(Reading(Obj(fields), r))
  {
    hide Join, ReadItems, ReadFields, ReadInteger, ReadChars;
    var body := Join(PrintFields(fields)) + ([CLOSE_BRACE] + r);
    var t := [OPEN_BRACE] + body;
    Enclosed(OPEN_BRACE, Join(PrintFields(fields)), CLOSE_BRACE, r);
    if |fields| == 0 {
      NoneJoined();
      assert t[2..] == r;
    } else {
      JoinFields(fields, r);
      assert t[1..] == body && t[1] == PrintField(fields[0])[0] == QUOTE;
    }
  }

  lemma NoneJoined()
    ensures Join([]) == []
  {
  }

  lemma {:induction false} ItemsRead(items: seq<Json>, r: Text)
    requires |items| > 0
    ensures ReadItems(Join(PrintItems(items)) + ([CLOSE_BRACKET] + r)) == Some(Reading(items, r))
    decreases items, 0
  {
    hide Join, ReadValue, Print;
    var tail := ItemTail(items[1..], r);
    JoinItems(items, r);
    PrintRead(items[0], tail);
    if |items| > 1 {
      ItemsRead(items[1..], r);
      assert tail[1..] == Join(PrintItems(items[1..])) + ([CLOSE_BRACKET] + r);
      assert items == [items[0]] + items[1..];
    } else {
      assert tail[1..] == r && items == [items[0]];
    }
  }

  lemma {:induction false} FieldRead(f: Field, r: Text)
    requires Delimited(r)
    ensures ReadField(PrintField(f) + r) == Some(Reading(f, r))
    decreases f, 0
  {
    hide Quote, Print, ReadChars, ReadValue, Starts;
    var value := Print(f.value) + r;
    AppendAssoc(Quote(f.key) + [COLON], Print(f.value), r);
    AppendAssoc(Quote(f.key), [COLON], value);
    QuoteRead(f.key, [COLON] + value);
    assert ([COLON] + value)[1..] == value;
    PrintRead(f.value, r);
  }

  lemma {:induction false} FieldsRead(fields: seq<Field>, r: Text)
    requires |fields| > 0
    ensures ReadFields(Join(PrintFields(fields)) + ([CLOSE_BRACE] + r)) == Some(Reading(fields, r))
    decreases fields, 0
  {
    hide Join, ReadField, PrintField;
    var tail := FieldTail(fields[1..], r);
    JoinFields(fields, r);
    FieldRead(fields[0], tail);
    if |fields| > 1 {
      FieldsRead(fields[1..], r);
      assert tail[1..] == Join(PrintFields(fields[1..])) + ([CLOSE_BRACE] + r);
      assert fields == [fields[0]] + fields[1..];
    } else {
      assert tail[1..] == r && fields == [fields[0]];
    }
  }

  // ----- Canonical texts -----

  /** The keys of every object are strictly ascending. */
  ghost predicate KeysAscending(v: Json)
  {
    match v
    case Arr(items) => forall i :: 0 <= i < |items| ==> KeysAscending(items[i])
    case Obj(fields) =>
      && StrictlySorted(KeyOf, fields)
      && forall i :: 0 <= i < |fields| ==> KeysAscending(fields[i].value)
    case _ => true
  }

  /** What `canonicalize` prints is a JSON text of the value: a reader gets a value that is equal up to key order,
      with ascending keys, and leaves what follows. */
  lemma CanonicalRead(v: Json, r: Text)
    requires WellFormed(v) && Delimited(r)
    ensures var read := ReadValue(Canonicalize(v) + r);
      read.Some? && read.value.rest == r && JsonEqual(v, read.value.value) && KeysAscending(read.value.value)
  {
    PrintRead(Norm(v), r);
    NormEqual(v);
  }

  /** Sorting the keys of a value keeps the value up to key order. */
  lemma {:induction false} NormEqual(v: Json)
    requires WellFormed(v)
    ensures JsonEqual(v, Norm(v)) && KeysAscending(Norm(v))
  {
    match v
    case Arr(items) =>
      forall i | 0 <= i < |items| ensures JsonEqual(items[i], Norm(items[i])) && KeysAscending(Norm(items[i])) {
        NormEqual(items[i]);
      }
    case Obj(fields) =>
      forall i | 0 <= i < |fields|
        ensures JsonEqual(fields[i].value, Norm(fields[i].value)) && KeysAscending(Norm(fields[i].value))
      {
        NormEqual(fields[i].value);
      }
      NormEqualFields(fields);
    case _ =>
  }

  lemma NormEqualFields(fields: seq<Field>)
    requires DistinctKeys(KeyOf, fields)
    requires forall i :: 0 <= i < |fields| ==>
      JsonEqual(fields[i].value, Norm(fields[i].value)) && KeysAscending(Norm(fields[i].value))
    ensures JsonEqual(Obj(fields), Norm(Obj(fields))) && KeysAscending(Norm(Obj(fields)))
  {
    hide Sort;
    var normed := NormFields(fields);
    var sorted := Sort(KeyOf, normed);
    NormDistinct(fields);
    SortSorted(KeyOf, normed);
    forall i | 0 <= i < |fields|
      ensures Get(sorted, fields[i].key) == Some(Norm(fields[i].value))
    {
      SortedGet(normed, i);
    }
    forall j | 0 <= j < |sorted| ensures KeysAscending(sorted[j].value) {
      MultisetMember(sorted, normed, sorted[j]);
      var i :| 0 <= i < |normed| && normed[i] == sorted[j];
    }
  }

  lemma SortedGet(fields: seq<Field>, i: nat)
    requires DistinctKeys(KeyOf, fields) && i < |fields|
    ensures Get(Sort(KeyOf, fields), fields[i].key) == Some(fields[i].value)
  {
    hide Sort;
    var sorted := Sort(KeyOf, fields);
    SortSorted(KeyOf, fields);
    MultisetMember(sorted, fields, fields[i]);
    var j :| 0 <= j < |sorted| && sorted[j] == fields[i];
    forall p, q | 0 <= p < q < |sorted| ensures KeyOf(sorted[p]) != KeyOf(sorted[q]) {
      LessAsymmetric(KeyOf(sorted[p]), KeyOf(sorted[q]));
    }
    GetField(sorted, j);
  }

  /** Two values have the same canonical text exactly when they are equal up to key order. */
  lemma CanonicalInjective(v: Json, w: Json)
    requires WellFormed(v) && WellFormed(w)
    ensures Canonicalize(v) == Canonicalize(w) <==> JsonEqual(v, w)
  {
    if Canonicalize(v) == Canonicalize(w) {
      PrintRead(Norm(v), []);
      PrintRead(Norm(w), []);
    }
    JsonEqualIsNormEqual(v, w);
  }
}
