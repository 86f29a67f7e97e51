/** Keeping the first item of each key, as a loop with a set of seen keys does. */
module FirstOfEach {
  import opened JsText
  import opened Json

  /** An item is kept when it has a key that no earlier item has. */
  predicate IsFirst(keys: seq<Option<Text>>, k: int)
  {
    0 <= k < |keys| && keys[k].Some? && keys[k] !in keys[..k]
  }

  /** The positions of the items that are kept. */
  function Firsts(keys: seq<Option<Text>>): (r: seq<int>)
    ensures |r| <= |keys|
  {
    if |keys| == 0 then []
    else
      var n := |keys| - 1;
      var before := Firsts(keys[..n]);
      if IsFirst(keys, n) then before + [n] else before
  }

  /** They are exactly the positions of first items, in order. */
  lemma {:induction false} FirstsExactly(keys: seq<Option<Text>>)
    ensures forall k :: k in Firsts(keys) <==> IsFirst(keys, k)
    ensures forall i, j :: 0 <= i < j < |Firsts(keys)| ==> Firsts(keys)[i] < Firsts(keys)[j]
    ensures forall i :: 0 <= i < |Firsts(keys)| ==> IsFirst(keys, Firsts(keys)[i])
  {
    if |keys| > 0 {
      var n := |keys| - 1;
      var before, r := Firsts(keys[..n]), Firsts(keys);
      FirstsExactly(keys[..n]);
      forall k | 0 <= k < n ensures IsFirst(keys, k) <==> IsFirst(keys[..n], k) {
        assert keys[..n][..k] == keys[..k];
      }
      hide IsFirst;
      forall k ensures k in r <==> IsFirst(keys, k) { FirstInRange(keys, k); FirstInRange(keys[..n], k); }
      forall i | 0 <= i < |before| ensures before[i] < n {
        assert before[i] in before;
        FirstInRange(keys[..n], before[i]);
      }
      forall i | 0 <= i < |r| ensures IsFirst(keys, r[i]) { assert r[i] in r; }
    }
  }

  lemma FirstInRange(keys: seq<Option<Text>>, k: int)
    ensures IsFirst(keys, k) ==> 0 <= k < |keys|
  {
  }

  /** No two kept items share a key. */
  lemma FirstsDiffer(keys: seq<Option<Text>>, i: nat, j: nat)
    requires i < j < |Firsts(keys)|
    ensures 0 <= Firsts(keys)[i] < Firsts(keys)[j] < |keys| && keys[Firsts(keys)[i]] != keys[Firsts(keys)[j]]
  {
    FirstsExactly(keys);
    var r := Firsts(keys);
    assert IsFirst(keys, r[i]) && IsFirst(keys, r[j]);
    assert keys[..r[j]][r[i]] == keys[r[i]];
  }

  /** Every key is the key of a kept item. */
  lemma {:induction false} KeyKept(keys: seq<Option<Text>>, k: nat) returns (i: nat)
    requires k < |keys| && keys[k].Some?
    ensures i < |Firsts(keys)| && 0 <= Firsts(keys)[i] <= k && keys[Firsts(keys)[i]] == keys[k]
  {
    if IsFirst(keys, k) {
      FirstsExactly(keys);
      i :| 0 <= i < |Firsts(keys)| && Firsts(keys)[i] == k;
    } else {
      var j :| 0 <= j < k && keys[..k][j] == keys[k];
      i := KeyKept(keys, j);
    }
  }

  /** The keys of the items read so far, which is what the loop remembers. */
  function Seen(keys: seq<Option<Text>>): set<Text>
  {
    set k | 0 <= k < |keys| && keys[k].Some? :: keys[k].value
  }

  lemma SeenSnoc(keys: seq<Option<Text>>, n: nat)
    requires n < |keys|
    ensures Seen(keys[..n + 1]) == Seen(keys[..n]) + if keys[n].Some? then {keys[n].value} else {}
    ensures keys[n].Some? ==> (IsFirst(keys, n) <==> keys[n].value !in Seen(keys[..n]))
    ensures Firsts(keys[..n + 1]) == if IsFirst(keys, n) then Firsts(keys[..n]) + [n] else Firsts(keys[..n])
  {
    var a, b := keys[..n], keys[..n + 1];
    assert b[..n] == a && b[n] == keys[n];
    forall t | t in Seen(a) ensures t in Seen(b) {
      var k :| 0 <= k < |a| && a[k].Some? && a[k].value == t;
      assert b[k] == a[k];
    }
    if keys[n].Some? && keys[n] in a {
      var k :| 0 <= k < |a| && a[k] == keys[n];
    }
  }
}
