/** The token estimator: a quarter of every maximal ASCII word, rounded up, and one per other visible unit. */
module TokenEstimate {
  import opened JsText
  import opened Json

  predicate IsWordUnit(u: Unit)
  {
    48 <= u <= 57 || 65 <= u <= 90 || 97 <= u <= 122 || u == 95
  }

  /** The length of the run of word units that a text starts with. */
  function WordRun(s: Text): (n: nat)
    ensures n <= |s| && forall i :: 0 <= i < n ==> IsWordUnit(s[i])
    ensures n < |s| ==> !IsWordUnit(s[n])
  {
    if |s| > 0 && IsWordUnit(s[0]) then 1 + WordRun(s[1..]) else 0
  }

  function Quarter(n: nat): nat { (n + 3) / 4 }

  /** The sum over the maximal word runs and the other visible units. */
  function Estimate(s: Text): nat
    decreases |s|
  {
    if |s| == 0 then 0
    else if IsWordUnit(s[0]) then Quarter(WordRun(s)) + Estimate(s[WordRun(s)..])
    else (if s[0] > 32 then 1 else 0) + Estimate(s[1..])
  }

  /** What is still to come when `length` units of a word have been read. */
  function Pending(length: nat, s: Text): nat { Quarter(length + WordRun(s)) + Estimate(s[WordRun(s)..]) }

  lemma PendingNone(s: Text)
    ensures Pending(0, s) == Estimate(s)
  {
    assert s[0..] == s;
  }

  lemma PendingStep(length: nat, s: Text)
    requires |s| > 0
    ensures IsWordUnit(s[0]) ==> Pending(length, s) == Pending(length + 1, s[1..])
    ensures !IsWordUnit(s[0]) ==>
      Pending(length, s) == Quarter(length) + (if s[0] > 32 then 1 else 0) + Pending(0, s[1..])
  {
    if IsWordUnit(s[0]) {
      assert s[1..][WordRun(s[1..])..] == s[WordRun(s)..];
    } else {
      assert s[0..] == s;
      PendingNone(s[1..]);
    }
  }

  /** `estimateTextTokens`; the absent text is `null` or `undefined`. */
  method EstimateTextTokens(text: Option<Text>) returns (tokens: nat)
    ensures tokens == if text.None? then 0 else Estimate(text.value)
  {
    if text.None? { return 0; }
    var source := text.value;
    tokens := 0;
    var inAsciiWord := false;
    var asciiWordLength: nat := 0;
    PendingNone(source);
    assert source[0..] == source;
    for index := 0 to |source|
      invariant inAsciiWord <==> asciiWordLength > 0
      invariant Estimate(source) == tokens + Pending(asciiWordLength, source[index..])
    {
      var code := source[index];
      PendingStep(asciiWordLength, source[index..]);
      assert source[index..][1..] == source[index + 1..];
      if IsWordUnit(code) {
        inAsciiWord := true;
        asciiWordLength := asciiWordLength + 1;
      } else {
        if inAsciiWord {
          tokens := tokens + Max(1, Quarter(asciiWordLength));
          inAsciiWord := false;
          asciiWordLength := 0;
        }
        if code > 32 { tokens := tokens + 1; }
      }
    }
    if inAsciiWord { tokens := tokens + Max(1, Quarter(asciiWordLength)); }
  }

  function Max(a: nat, b: nat): nat { if a < b then b else a }

  lemma {:induction false} WordRunAppend(a: Text, b: Text)
    ensures WordRun(a + b) == if WordRun(a) < |a| then WordRun(a) else |a| + WordRun(b)
  {
    if |a| == 0 {
      assert a + b == b;
    } else {
      assert (a + b)[1..] == a[1..] + b;
      WordRunAppend(a[1..], b);
    }
  }

  /** The length of the run of word units that a text ends with. */
  function TrailingRun(s: Text): (n: nat)
    ensures n <= |s|
  {
    if |s| > 0 && IsWordUnit(s[|s| - 1]) then 1 + TrailingRun(s[..|s| - 1]) else 0
  }

  /** Cutting a text where no word ends or begins inside keeps the run at its end. */
  lemma {:induction false} TrailingDrop(s: Text, n: nat)
    requires n <= |s| && n > 0
    requires if n < |s| then !IsWordUnit(s[n]) || !IsWordUnit(s[n - 1]) else !IsWordUnit(s[n - 1])
    ensures TrailingRun(s[n..]) == TrailingRun(s)
    decreases |s|
  {
    var k := |s| - 1;
    if n <= k && IsWordUnit(s[k]) {
      assert s[n..][..|s[n..]| - 1] == s[..k][n..];
      TrailingDrop(s[..k], n);
    }
  }

  lemma {:induction false} TrailingWord(s: Text)
    requires WordRun(s) == |s|
    ensures TrailingRun(s) == |s|
  {
    if |s| > 0 {
      WordInit(s[..|s| - 1], s[|s| - 1..]);
      assert s[..|s| - 1] + s[|s| - 1..] == s;
      TrailingWord(s[..|s| - 1]);
    }
  }

  lemma WordInit(a: Text, b: Text)
    requires WordRun(a + b) == |a + b|
    ensures WordRun(a) == |a|
  {
    assert forall i :: 0 <= i < |a| ==> (a + b)[i] == a[i];
  }

  lemma QuarterSum(n: nat, m: nat)
    ensures var d := Quarter(n) + Quarter(m) - Quarter(n + m);
      0 <= d <= 1 && (d == 1 <==> n % 4 > 0 && m % 4 > 0 && n % 4 + m % 4 <= 4)
  {
    var p, i, q, j := n / 4, n % 4, m / 4, m % 4;
    assert n == 4 * p + i && m == 4 * q + j;
    assert Quarter(n) == p + Quarter(i) && Quarter(m) == q + Quarter(j);
    assert Quarter(n + m) == p + q + Quarter(i + j);
  }

  /** The first word, or the first other unit. */
  function HeadLength(s: Text): (n: nat)
    requires |s| > 0
    ensures 0 < n <= |s|
  {
    if IsWordUnit(s[0]) then WordRun(s) else 1
  }

  function HeadCost(s: Text): nat
    requires |s| > 0
  {
    if IsWordUnit(s[0]) then Quarter(WordRun(s)) else if s[0] > 32 then 1 else 0
  }

  lemma EstimateStep(s: Text)
    requires |s| > 0
    ensures Estimate(s) == HeadCost(s) + Estimate(s[HeadLength(s)..])
  {
  }

  lemma HeadAppend(a: Text, b: Text)
    requires |a| > 0 && (IsWordUnit(a[0]) ==> WordRun(a) < |a|)
    ensures HeadLength(a + b) == HeadLength(a) && HeadCost(a + b) == HeadCost(a)
  {
    hide Quarter, WordRun, IsWordUnit;
    assert (a + b)[0] == a[0];
    WordRunAppend(a, b);
  }

  lemma HeadTrailing(a: Text)
    requires |a| > 0 && (IsWordUnit(a[0]) ==> WordRun(a) < |a|)
    ensures TrailingRun(a[HeadLength(a)..]) == TrailingRun(a)
  {
    hide WordRun, TrailingRun, IsWordUnit;
    TrailingDrop(a, HeadLength(a));
  }

  /** Joining two texts saves what joining the word at the seam saves. */
  lemma {:induction false} EstimateJoin(a: Text, b: Text)
    ensures Estimate(a + b) + Quarter(TrailingRun(a)) + Quarter(WordRun(b))
         == Estimate(a) + Estimate(b) + Quarter(TrailingRun(a) + WordRun(b))
    decreases |a|
  {
    hide Quarter, HeadLength, HeadCost, WordRun, Estimate, TrailingRun, IsWordUnit;
    if |a| == 0 {
      JoinNothing(a, b);
    } else if IsWordUnit(a[0]) && WordRun(a) == |a| {
      WordRunAppend(a, b);
      TrailingWord(a);
      JoinWord(a, b);
    } else {
      var n := HeadLength(a);
      HeadAppend(a, b);
      HeadTrailing(a);
      assert (a + b)[n..] == a[n..] + b;
      EstimateStep(a);
      EstimateStep(a + b);
      EstimateJoin(a[n..], b);
    }
  }

  lemma JoinNothing(a: Text, b: Text)
    requires |a| == 0
    ensures a + b == b && Estimate(a) == 0 && TrailingRun(a) == 0 && Quarter(0) == 0
  {
  }

  lemma JoinWord(a: Text, b: Text)
    requires |a| > 0 && WordRun(a) == |a| && WordRun(a + b) == |a| + WordRun(b)
    ensures Estimate(a + b) + Quarter(WordRun(b)) == Quarter(|a| + WordRun(b)) + Estimate(b)
    ensures Estimate(a) == Quarter(|a|)
  {
    hide Quarter;
    PendingNone(b);
    assert (a + b)[0] == a[0] && (a + b)[|a| + WordRun(b)..] == b[WordRun(b)..];
    EstimateStep(a + b);
    EstimateStep(a);
    assert a[|a|..] == [];
  }

  /** Splitting a text never lowers the sum of the estimates and raises it by at most one, which happens exactly
      when it cuts a word so that both pieces fill one more quarter than they need together. */
  lemma EstimateAppend(a: Text, b: Text)
    ensures Estimate(a) + Estimate(b) - 1 <= Estimate(a + b) <= Estimate(a) + Estimate(b)
    ensures Estimate(a + b) == Estimate(a) + Estimate(b) - 1 <==>
      TrailingRun(a) % 4 > 0 && WordRun(b) % 4 > 0 && TrailingRun(a) % 4 + WordRun(b) % 4 <= 4
  {
    hide Quarter, Estimate, WordRun, TrailingRun;
    EstimateJoin(a, b);
    QuarterSum(TrailingRun(a), WordRun(b));
  }

  // ----- What the estimate of a text is made of -----

  /** A text of ASCII letters, digits and underscores. */
  predicate IsAsciiWord(s: Text)
  {
    forall i :: 0 <= i < |s| ==>
      || 'a' as int <= s[i] <= 'z' as int || 'A' as int <= s[i] <= 'Z' as int || '0' as int <= s[i] <= '9' as int
      || s[i] == '_' as int
  }

  lemma WordCost(a: Text)
    requires IsAsciiWord(a) && |a| > 0
    ensures 4 * (Estimate(a) - 1) < |a| <= 4 * Estimate(a)
  {
    WholeWord(a);
    assert a[|a|..] == [] && IsWordUnit(a[0]);
  }

  lemma OtherCost(a: Text)
    requires |a| == 1 && !IsAsciiWord(a)
    ensures Estimate(a) == if a[0] > ' ' as int then 1 else 0
  {
    assert a[1..] == [];
  }

  lemma SumCost(a: Text, b: Text)
    requires (|a| > 0 ==> !IsAsciiWord([a[|a| - 1]])) || (|b| > 0 ==> !IsAsciiWord([b[0]]))
    ensures Estimate(a + b) == Estimate(a) + Estimate(b)
  {
    hide Estimate;
    EstimateJoin(a, b);
    if |a| > 0 && !IsAsciiWord([a[|a| - 1]]) { assert TrailingRun(a) == 0; }
    if |b| > 0 && !IsAsciiWord([b[0]]) { assert WordRun(b) == 0; }
  }

  /** A word costs one token for every four units it begins, any other unit one token if it is beyond the space, and
      texts that do not cut a word cost the sum: this determines the estimate of every text. */
  lemma EstimateParts(a: Text, b: Text)
    ensures IsAsciiWord(a) && |a| > 0 ==> 4 * (Estimate(a) - 1) < |a| <= 4 * Estimate(a)
    ensures |a| == 0 ==> Estimate(a) == 0
    ensures |a| == 1 && !IsAsciiWord(a) ==> Estimate(a) == if a[0] > ' ' as int then 1 else 0
    ensures (|a| > 0 ==> !IsAsciiWord([a[|a| - 1]])) || (|b| > 0 ==> !IsAsciiWord([b[0]])) ==>
      Estimate(a + b) == Estimate(a) + Estimate(b)
  {
    assert |a| == 0 ==> Estimate(a) == 0;
    hide Estimate, IsAsciiWord;
    if IsAsciiWord(a) && |a| > 0 { WordCost(a); }
    if |a| == 1 && !IsAsciiWord(a) { OtherCost(a); }
    if (|a| > 0 ==> !IsAsciiWord([a[|a| - 1]])) || (|b| > 0 ==> !IsAsciiWord([b[0]])) { SumCost(a, b); }
  }

  lemma WholeWord(s: Text)
    requires IsAsciiWord(s)
    ensures WordRun(s) == |s|
  {
    if WordRun(s) < |s| { assert IsWordUnit(s[WordRun(s)]); }
  }
}
