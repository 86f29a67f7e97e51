/** JavaScript strings: sequences of UTF-16 code units, compared unit by unit. */
module JsText {

  type Unit = u: int | 0 <= u < 0x10000
  type Text = seq<Unit>

  /** The text of an ASCII string literal. */
  function Lit(s: string): (t: Text)
    ensures |t| == |s|
  {
    seq(|s|, i requires 0 <= i < |s| => (s[i] as int) % 0x10000)
  }

  /** The halves of surrogate pairs. */
  predicate IsHigh(u: Unit) { 0xD800 <= u <= 0xDBFF }
  predicate IsLow(u: Unit) { 0xDC00 <= u <= 0xDFFF }

  predicate StartsWithPair(s: Text)
  {
    |s| >= 2 && IsHigh(s[0]) && IsLow(s[1])
  }

  /** JavaScript's `<` on strings, which is also the order of `sort()`. */
  predicate Less(a: Text, b: Text)
  {
    if |b| == 0 then false
    else if |a| == 0 then true
    else if a[0] != b[0] then a[0] < b[0]
    else Less(a[1..], b[1..])
  }

  lemma {:induction false} LessIrreflexive(a: Text)
    ensures !Less(a, a)
  {
    if |a| > 0 { LessIrreflexive(a[1..]); }
  }

  lemma {:induction false} LessTransitive(a: Text, b: Text, c: Text)
    requires Less(a, b) && Less(b, c)
    ensures Less(a, c)
  {
    if |a| > 0 && |b| > 0 && |c| > 0 && a[0] == b[0] == c[0] {
      LessTransitive(a[1..], b[1..], c[1..]);
    }
  }

  lemma {:induction false} LessTotal(a: Text, b: Text)
    ensures a == b || Less(a, b) || Less(b, a)
  {
    if |a| > 0 && |b| > 0 && a[0] == b[0] {
      LessTotal(a[1..], b[1..]);
      assert a == [a[0]] + a[1..];
      assert b == [b[0]] + b[1..];
    }
  }

  lemma LessAsymmetric(a: Text, b: Text)
    requires Less(a, b)
    ensures !Less(b, a) && a != b
  {
    if Less(b, a) { LessTransitive(a, b, a); }
    LessIrreflexive(a);
  }

  /** Splitting equal concatenations at equal lengths. */
  lemma AppendInjective<T>(a: seq<T>, b: seq<T>, r: seq<T>, s: seq<T>)
    requires a + r == b + s && |a| == |b|
    ensures a == b && r == s
  {
    assert a == (a + r)[..|a|] && b == (b + s)[..|b|];
    assert r == (a + r)[|a|..] && s == (b + s)[|b|..];
  }

  lemma AppendHead<T>(a: seq<T>, r: seq<T>)
    requires |a| > 0
    ensures (a + r)[0] == a[0] && a + r == [a[0]] + (a[1..] + r)
  {
  }

  lemma AppendAssoc<T>(a: seq<T>, b: seq<T>, c: seq<T>)
    ensures a + b + c == a + (b + c)
  {
  }

  /** `if (!ok) errors.push(error)`. */
  method PushUnless<T>(errors: seq<T>, ok: bool, error: T) returns (r: seq<T>)
    ensures r == [] <==> errors == [] && ok
    ensures r == if ok then errors else errors + [error]
  {
    r := if ok then errors else errors + [error];
  }
}
