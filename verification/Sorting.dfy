/** `Array.prototype.sort` on strings, and on records by a string key. */
module Sorting {
  import opened JsText

  ghost predicate StrictlySorted<T>(key: T -> Text, s: seq<T>)
  {
    forall i, j :: 0 <= i < j < |s| ==> Less(key(s[i]), key(s[j]))
  }

  ghost predicate DistinctKeys<T>(key: T -> Text, s: seq<T>)
  {
    forall i, j :: 0 <= i < j < |s| ==> key(s[i]) != key(s[j])
  }

  function Insert<T>(key: T -> Text, x: T, s: seq<T>): (r: seq<T>)
    ensures multiset(r) == multiset(s) + multiset{x}
  {
    if |s| == 0 then [x]
    else if Less(key(s[0]), key(x)) then
      var r := [s[0]] + Insert(key, x, s[1..]);
      assert s == [s[0]] + s[1..];
      r
    else [x] + s
  }

  function Sort<T>(key: T -> Text, s: seq<T>): (r: seq<T>)
    ensures multiset(r) == multiset(s)
    ensures |r| == |s|
  {
    if |s| == 0 then []
    else
      assert s == [s[0]] + s[1..];
      var r := Insert(key, s[0], Sort(key, s[1..]));
      assert |multiset(r)| == |r| && |multiset(s)| == |s|;
      r
  }

  lemma MultisetMember<T>(a: seq<T>, b: seq<T>, x: T)
    requires multiset(a) == multiset(b)
    ensures x in a <==> x in b
  {
    assert x in a <==> x in multiset(a);
    assert x in b <==> x in multiset(b);
  }

  lemma {:induction false} InsertSorted<T>(key: T -> Text, x: T, s: seq<T>)
    requires StrictlySorted(key, s)
    requires forall y :: y in s ==> key(y) != key(x)
    ensures StrictlySorted(key, Insert(key, x, s))
  {
    if |s| > 0 {
      if Less(key(s[0]), key(x)) {
        var t := s[1..];
        InsertSorted(key, x, t);
        var r := Insert(key, x, t);
        forall j | 0 <= j < |r| ensures Less(key(s[0]), key(r[j])) {
          assert r[j] in multiset(r);
          assert r[j] in t || r[j] == x;
        }
      } else {
        assert s[0] in s;
        LessTotal(key(s[0]), key(x));
        forall j | 0 <= j < |s| ensures Less(key(x), key(s[j])) {
          if j > 0 { LessTransitive(key(x), key(s[0]), key(s[j])); }
        }
      }
    }
  }

  /** Sorting records with distinct keys gives strictly increasing keys. */
  lemma {:induction false} SortSorted<T>(key: T -> Text, s: seq<T>)
    requires DistinctKeys(key, s)
    ensures StrictlySorted(key, Sort(key, s))
  {
    if |s| > 0 {
      SortSorted(key, s[1..]);
      forall y | y in Sort(key, s[1..]) ensures key(y) != key(s[0]) {
        MultisetMember(Sort(key, s[1..]), s[1..], y);
        var j :| 0 <= j < |s[1..]| && s[1..][j] == y;
        assert y == s[j + 1];
      }
      InsertSorted(key, s[0], Sort(key, s[1..]));
    }
  }

  lemma StrictlySortedHead<T>(key: T -> Text, a: seq<T>, b: seq<T>)
    requires StrictlySorted(key, a) && StrictlySorted(key, b)
    requires forall x :: x in a <==> x in b
    requires |a| > 0 && |b| > 0
    ensures a[0] == b[0]
  {
    assert a[0] in b && b[0] in a;
    var i :| 0 <= i < |b| && b[i] == a[0];
    var j :| 0 <= j < |a| && a[j] == b[0];
    if i > 0 && j > 0 {
      LessAsymmetric(key(b[0]), key(b[i]));
    }
  }

  lemma StrictlySortedTail<T>(key: T -> Text, a: seq<T>, b: seq<T>)
    requires StrictlySorted(key, a) && StrictlySorted(key, b)
    requires forall x :: x in a <==> x in b
    requires |a| > 0 && |b| > 0 && a[0] == b[0]
    ensures forall x :: x in a[1..] ==> x in b[1..]
  {
    forall x | x in a[1..] ensures x in b[1..] {
      var i :| 0 <= i < |a[1..]| && a[1..][i] == x;
      assert a[i + 1] == x;
      LessAsymmetric(key(a[0]), key(x));
      assert x in b;
      var j :| 0 <= j < |b| && b[j] == x;
      assert b[1..][j - 1] == x;
    }
  }

  /** A strictly sorted sequence is determined by its set of elements. */
  lemma {:induction false} StrictlySortedUnique<T>(key: T -> Text, a: seq<T>, b: seq<T>)
    requires StrictlySorted(key, a) && StrictlySorted(key, b)
    requires forall x :: x in a <==> x in b
    ensures a == b
  {
    assert |a| > 0 ==> a[0] in b;
    assert |b| > 0 ==> b[0] in a;
    if |a| > 0 && |b| > 0 {
      StrictlySortedHead(key, a, b);
      StrictlySortedTail(key, a, b);
      StrictlySortedTail(key, b, a);
      StrictlySortedUnique(key, a[1..], b[1..]);
      assert a == [a[0]] + a[1..] && b == [b[0]] + b[1..];
    }
  }

  function Map<A, B>(f: A -> B, s: seq<A>): (r: seq<B>)
    ensures |r| == |s|
    ensures forall i :: 0 <= i < |s| ==> r[i] == f(s[i])
  {
    seq(|s|, i requires 0 <= i < |s| => f(s[i]))
  }

  lemma {:induction false} InsertMap<A, B>(ka: A -> Text, kb: B -> Text, f: A -> B, x: A, s: seq<A>)
    requires kb(f(x)) == ka(x) && forall y :: y in s ==> kb(f(y)) == ka(y)
    ensures Insert(kb, f(x), Map(f, s)) == Map(f, Insert(ka, x, s))
  {
    if |s| > 0 && Less(ka(s[0]), ka(x)) {
      InsertMap(ka, kb, f, x, s[1..]);
      assert Map(f, s)[1..] == Map(f, s[1..]);
    }
  }

  /** Sorting commutes with a map that keeps the keys. */
  lemma {:induction false} SortMap<A, B>(ka: A -> Text, kb: B -> Text, f: A -> B, s: seq<A>)
    requires forall y :: y in s ==> kb(f(y)) == ka(y)
    ensures Sort(kb, Map(f, s)) == Map(f, Sort(ka, s))
  {
    if |s| > 0 {
      SortMap(ka, kb, f, s[1..]);
      assert Map(f, s)[1..] == Map(f, s[1..]);
      forall y | y in Sort(ka, s[1..]) ensures kb(f(y)) == ka(y) {
        MultisetMember(Sort(ka, s[1..]), s[1..], y);
      }
      InsertMap(ka, kb, f, s[0], Sort(ka, s[1..]));
    }
  }
}
