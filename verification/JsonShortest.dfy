/** No JSON text of a value is shorter than the printed one: nothing is escaped without need, and nothing that has a
    short escape is written in a longer way. */
module JsonShortest {
  import opened JsText
  import opened JsonReader
  import opened CanonicalJson

  lemma {:induction false} DigitsShortest(before: nat, t: Text)
    requires before > 0
    ensures var r := ReadDigits(before, t); |Digits(r.value)| + |r.rest| == |Digits(before)| + |t|
    decreases |t|
  {
    if |t| > 0 && IsDecimalDigit(t[0]) {
      DigitsShortest(10 * before + (t[0] - 48), t[1..]);
    }
  }

  lemma DecimalShortest(t: Text)
    ensures var n := ReadInteger(t); n.Some? ==> |Decimal(n.value.value)| + |n.value.rest| <= |t|
  {
    var digits := if Starts(t, "-") then t[1..] else t;
    if |digits| > 0 && IsDecimalDigit(digits[0]) && digits[0] != 48 {
      DigitsShortest(digits[0] - 48, digits[1..]);
    }
  }

  lemma EscapeShortest(t: Text)
    ensures var u := ReadEscape(t); u.Some? ==> |QuoteUnit(u.value.value)| + |u.value.rest| <= |t|
  {
  }

  /** Units written one by one take no less room than the text written at once, which may join two of them. */
  lemma QuoteBodyJoins(u: Unit, s: Text)
    ensures |QuoteBody([u] + s)| <= |QuoteUnit(u)| + |QuoteBody(s)|
  {
    var t := [u] + s;
    assert t[1..] == s;
    if StartsWithPair(t) {
      assert t[2..] == s[1..];
    }
  }

  lemma {:induction false} CharsShortest(t: Text)
    ensures var s := ReadChars(t); s.Some? ==> |QuoteBody(s.value.value)| + 1 + |s.value.rest| <= |t|
    decreases |t|
  {
    var s := ReadChars(t);
    if s.Some? && !Starts(t, "\"") {
      if Starts(t, "\\") {
        var u := ReadEscape(t).value;
        EscapeShortest(t);
        CharsShortest(u.rest);
        QuoteBodyJoins(u.value, ReadChars(u.rest).value.value);
      } else if StartsWithPair(t) {
        CharsShortest(t[2..]);
        var rest := ReadChars(t[2..]).value.value;
        assert (t[..2] + rest)[2..] == rest;
      } else {
        CharsShortest(t[1..]);
        QuoteBodyJoins(t[0], ReadChars(t[1..]).value.value);
        assert t[..1] == [t[0]];
      }
    }
  }

  /** Of all texts that read as a value, the printed one is the shortest. */
  lemma {:induction false} PrintShortest(t: Text)
    ensures var v := ReadValue(t); v.Some? ==> |Print(v.value.value)| + |v.value.rest| <= |t|
    decreases |t|, 0
  {
    hide Join, Decimal, QuoteBody, ReadItems, ReadFields, ReadChars, ReadInteger;
    NoneJoined();
    if Starts(t, "[") && ReadValue(t).Some? {
      if !Starts(t, "[]") { ItemsShortest(t[1..]); }
    } else if Starts(t, "{") && ReadValue(t).Some? {
      if !Starts(t, "{}") { FieldsShortest(t[1..]); }
    } else if Starts(t, "\"") {
      CharsShortest(t[1..]);
    } else {
      DecimalShortest(t);
    }
  }

  lemma {:induction false} ItemsShortest(t: Text)
    ensures var r := ReadItems(t); r.Some? ==> |Join(PrintItems(r.value.value))| + 1 + |r.value.rest| <= |t|
    decreases |t|, 1
  {
    var r := ReadItems(t);
    if r.Some? {
      PrintShortest(t);
      var v := ReadValue(t).value;
      if !Starts(v.rest, "]") {
        ItemsShortest(v.rest[1..]);
        var rest := ReadItems(v.rest[1..]).value.value;
        assert PrintItems([v.value] + rest)[1..] == PrintItems(rest);
      }
    }
  }

  lemma {:induction false} FieldShortest(t: Text)
    ensures var f := ReadField(t); f.Some? ==> |PrintField(f.value.value)| + |f.value.rest| <= |t|
    decreases |t|, 0
  {
    if ReadField(t).Some? {
      CharsShortest(t[1..]);
      PrintShortest(ReadChars(t[1..]).value.rest[1..]);
    }
  }

  lemma {:induction false} FieldsShortest(t: Text)
    ensures var r := ReadFields(t); r.Some? ==> |Join(PrintFields(r.value.value))| + 1 + |r.value.rest| <= |t|
    decreases |t|, 1
  {
    var r := ReadFields(t);
    if r.Some? {
      FieldShortest(t);
      var f := ReadField(t).value;
      if !Starts(f.rest, "}") {
        FieldsShortest(f.rest[1..]);
        var rest := ReadFields(f.rest[1..]).value.value;
        assert PrintFields([f.value] + rest)[1..] == PrintFields(rest);
      }
    }
  }
}
