/** A reader of JSON texts, from the grammar of RFC 8259: it knows nothing of the printer. */
module JsonReader {
  import opened JsText
  import opened Json

  /** What a reader takes from the front of a text, and the text that is left. */
  datatype Reading<+T> = Reading(value: T, rest: Text)

  predicate Starts(t: Text, s: string): (b: bool)
    ensures b && |s| > 0 ==> |t| > 0 && t[0] == s[0] as int
    ensures |s| == 1 && |t| > 0 && t[0] == s[0] as int ==> b
  {
    |s| <= |t| && forall i :: 0 <= i < |s| ==> t[i] == s[i] as int
  }

  // ----- Section 6: numbers, of which the model has the integers -----

  predicate IsDecimalDigit(u: Unit) { '0' as int <= u <= '9' as int }

  /** The digits at the front of a text, after digits of a given value. */
  function ReadDigits(before: nat, t: Text): (r: Reading<nat>)
    ensures |r.rest| <= |t|
    decreases |t|
  {
    if |t| > 0 && IsDecimalDigit(t[0]) then ReadDigits(10 * before + (t[0] - '0' as int), t[1..])
    else Reading(before, t)
  }

  /** A zero, or digits that do not start with one. */
  function ReadNatural(t: Text): (r: Option<Reading<nat>>)
    ensures r.Some? ==> |r.value.rest| < |t|
  {
    if |t| == 0 || !IsDecimalDigit(t[0]) then None
    else if t[0] == '0' as int then Some(Reading(0, t[1..]))
    else Some(ReadDigits(t[0] - '0' as int, t[1..]))
  }

  function ReadInteger(t: Text): (r: Option<Reading<int>>)
    ensures r.Some? ==> |r.value.rest| < |t|
  {
    var negative := Starts(t, "-");
    match ReadNatural(if negative then t[1..] else t)
    case None => None
    case Some(n) =>
      var magnitude: int := n.value;
      Some(Reading(if negative then -magnitude else magnitude, n.rest))
  }

  // ----- Section 7: strings -----

  function HexValue(u: Unit): Option<nat>
  {
    if '0' as int <= u <= '9' as int then Some(u - '0' as int)
    else if 'a' as int <= u <= 'f' as int then Some(10 + u - 'a' as int)
    else if 'A' as int <= u <= 'F' as int then Some(10 + u - 'A' as int)
    else None
  }

  /** The value of a text of hexadecimal digits. */
  function ReadHex(t: Text): Option<nat>
  {
    if |t| == 0 then Some(0)
    else
      var high, low := ReadHex(t[..|t| - 1]), HexValue(t[|t| - 1]);
      if high.Some? && low.Some? then Some(16 * high.value + low.value) else None
  }

  /** The unit that an escape at the front of a text denotes. */
  function ReadEscape(t: Text): (r: Option<Reading<Unit>>)
    ensures r.Some? ==> |r.value.rest| < |t|
  {
    if Starts(t, "\\\"") then Some(Reading('\"' as int, t[2..]))
    else if Starts(t, "\\\\") then Some(Reading('\\' as int, t[2..]))
    else if Starts(t, "\\/") then Some(Reading('/' as int, t[2..]))
    else if Starts(t, "\\b") then Some(Reading(8, t[2..]))
    else if Starts(t, "\\f") then Some(Reading(12, t[2..]))
    else if Starts(t, "\\n") then Some(Reading(10, t[2..]))
    else if Starts(t, "\\r") then Some(Reading(13, t[2..]))
    else if Starts(t, "\\t") then Some(Reading(9, t[2..]))
    else if Starts(t, "\\u") && |t| >= 6 then
      match ReadHex(t[2..6])
      case None => None
      case Some(u) => if u < 0x10000 then Some(Reading(u, t[6..])) else None
    else None
  }

  /** The characters of a string up to its closing quotation mark.  A character beyond the basic plane is a pair of
      units; half of a pair is not a character, and stands in a text only as an escape. */
  function ReadChars(t: Text): (r: Option<Reading<Text>>)
    ensures r.Some? ==> |r.value.rest| < |t|
    decreases |t|
  {
    if |t| == 0 then None
    else if Starts(t, "\"") then Some(Reading([], t[1..]))
    else if Starts(t, "\\") then
      match ReadEscape(t)
      case None => None
      case Some(u) => Prefix([u.value], ReadChars(u.rest))
    else if StartsWithPair(t) then Prefix(t[..2], ReadChars(t[2..]))
    else if t[0] < 0x20 || IsHigh(t[0]) || IsLow(t[0]) then None
    else Prefix(t[..1], ReadChars(t[1..]))
  }

  /** What was read first, before what was read next. */
  function Prefix<T>(s: seq<T>, r: Option<Reading<seq<T>>>): Option<Reading<seq<T>>>
  {
    match r
    case None => None
    case Some(x) => Some(Reading(s + x.value, x.rest))
  }

  // ----- Sections 3 to 5: values, without insignificant white space -----

  function ReadValue(t: Text): (r: Option<Reading<Json>>)
    ensures r.Some? ==> |r.value.rest| < |t|
    decreases |t|, 0
  {
    if Starts(t, "null") then Some(Reading(Null, t[4..]))
    else if Starts(t, "true") then Some(Reading(Bool(true), t[4..]))
    else if Starts(t, "false") then Some(Reading(Bool(false), t[5..]))
    else if Starts(t, "\"") then
      match ReadChars(t[1..])
      case None => None
      case Some(s) => Some(Reading(Str(s.value), s.rest))
    else if Starts(t, "[]") then Some(Reading(Arr([]), t[2..]))
    else if Starts(t, "[") then
      match ReadItems(t[1..])
      case None => None
      case Some(items) => Some(Reading(Arr(items.value), items.rest))
    else if Starts(t, "{}") then Some(Reading(Obj([]), t[2..]))
    else if Starts(t, "{") then
      match ReadFields(t[1..])
      case None => None
      case Some(fields) => Some(Reading(Obj(fields.value), fields.rest))
    else
      match ReadInteger(t)
      case None => None
      case Some(n) => Some(Reading(Num(n.value), n.rest))
  }

  /** One or more items, with commas between them, and the closing bracket. */
  function ReadItems(t: Text): (r: Option<Reading<seq<Json>>>)
    ensures r.Some? ==> |r.value.rest| < |t|
    decreases |t|, 1
  {
    match ReadValue(t)
    case None => None
    case Some(v) =>
      if Starts(v.rest, "]") then Some(Reading([v.value], v.rest[1..]))
      else if Starts(v.rest, ",") then Prefix([v.value], ReadItems(v.rest[1..]))
      else None
  }

  function ReadField(t: Text): (r: Option<Reading<Field>>)
    ensures r.Some? ==> |r.value.rest| < |t|
    decreases |t|, 0
  {
    if !Starts(t, "\"") then None
    else
      match ReadChars(t[1..])
      case None => None
      case Some(key) =>
        if !Starts(key.rest, ":") then None
        else
          match ReadValue(key.rest[1..])
          case None => None
          case Some(v) => Some(Reading(Field(key.value, v.value), v.rest))
  }

  /** One or more fields, with commas between them, and the closing brace. */
  function ReadFields(t: Text): (r: Option<Reading<seq<Field>>>)
    ensures r.Some? ==> |r.value.rest| < |t|
    decreases |t|, 1
  {
    match ReadField(t)
    case None => None
    case Some(f) =>
      if Starts(f.rest, "}") then Some(Reading([f.value], f.rest[1..]))
      else if Starts(f.rest, ",") then Prefix([f.value], ReadFields(f.rest[1..]))
      else None
  }
}
