/** JSON values as JavaScript holds them: an object is an ordered list of named properties. */
module Json {
  import opened JsText
  import opened Sorting

  datatype Option<+T> = None | Some(value: T)

  /** What a call that may throw gives back. */
  datatype Result<+T> = Ok(value: T) | Throws

  datatype Json =
    | Null
    | Bool(b: bool)
    | Num(n: int)
    | Str(s: Text)
    | Arr(items: seq<Json>)
    | Obj(fields: seq<Field>)

  datatype Field = Field(key: Text, value: Json)

  function KeyOf(f: Field): Text { f.key }

  /** The property names of every object are distinct, as in any JavaScript object. */
  ghost predicate WellFormed(v: Json)
  {
    match v
    case Arr(items) => forall i :: 0 <= i < |items| ==> WellFormed(items[i])
    case Obj(fields) =>
      && DistinctKeys(KeyOf, fields)
      && forall i :: 0 <= i < |fields| ==> WellFormed(fields[i].value)
    case _ => true
  }

  /** `object[key]`, with `None` for `undefined`. */
  function Get(fields: seq<Field>, key: Text): (r: Option<Json>)
    ensures r.Some? ==> Field(key, r.value) in fields
    ensures r.None? ==> forall i :: 0 <= i < |fields| ==> fields[i].key != key
  {
    if |fields| == 0 then None
    else if fields[0].key == key then Some(fields[0].value)
    else
      assert fields == [fields[0]] + fields[1..];
      Get(fields[1..], key)
  }

  /** `value[key]` of any JSON value: only objects have named properties here. */
  function Property(v: Json, key: Text): Option<Json>
  {
    if v.Obj? then Get(v.fields, key) else None
  }

  lemma PropertyWellFormed(v: Json, key: Text)
    requires WellFormed(v) && Property(v, key).Some?
    ensures WellFormed(Property(v, key).value)
  {
  }

  /** The first field of a name is the one that is read. */
  lemma {:induction false} GetFirst(fields: seq<Field>, i: nat)
    requires i < |fields| && forall j :: 0 <= j < i ==> fields[j].key != fields[i].key
    ensures Get(fields, fields[i].key) == Some(fields[i].value)
  {
    if i > 0 { GetFirst(fields[1..], i - 1); }
  }

  lemma GetField(fields: seq<Field>, i: nat)
    requires DistinctKeys(KeyOf, fields) && i < |fields|
    ensures Get(fields, fields[i].key) == Some(fields[i].value)
  {
    assert forall j :: 0 <= j < i ==> KeyOf(fields[j]) != KeyOf(fields[i]);
    GetFirst(fields, i);
  }

  /** The value with the keys of every object in sorted order. */
  function Norm(v: Json): Json
  {
    match v
    case Arr(items) => Arr(seq(|items|, i requires 0 <= i < |items| => Norm(items[i])))
    case Obj(fields) => Obj(Sort(KeyOf, NormFields(fields)))
    case _ => v
  }

  function NormFields(fields: seq<Field>): (r: seq<Field>)
    ensures |r| == |fields|
    ensures forall i :: 0 <= i < |r| ==> r[i].key == fields[i].key
  {
    seq(|fields|, i requires 0 <= i < |fields| => Field(fields[i].key, Norm(fields[i].value)))
  }

  /** `jsonEqual` of the connectors: structural equality that ignores the order of keys. */
  predicate JsonEqual(v: Json, w: Json)
    decreases v
  {
    match v
    case Arr(xs) =>
      w.Arr? && |xs| == |w.items| && forall i :: 0 <= i < |xs| ==> JsonEqual(xs[i], w.items[i])
    case Obj(fs) =>
      && w.Obj? && |fs| == |w.fields|
      && forall i :: 0 <= i < |fs| ==>
           Get(w.fields, fs[i].key).Some? && JsonEqual(fs[i].value, Get(w.fields, fs[i].key).value)
    case _ => v == w
  }

  ghost function Keys(fields: seq<Field>): set<Text>
  {
    set i | 0 <= i < |fields| :: fields[i].key
  }

  lemma {:induction false} KeysCardinality(fields: seq<Field>)
    requires DistinctKeys(KeyOf, fields)
    ensures |Keys(fields)| == |fields|
  {
    if |fields| > 0 {
      var n := |fields| - 1;
      var init := fields[..n];
      KeysCardinality(init);
      assert forall j :: 0 <= j < n ==> KeyOf(fields[j]) != KeyOf(fields[n]);
      assert Keys(fields) == Keys(init) + {fields[n].key};
    }
  }

  lemma SubsetSameSize<T>(a: set<T>, b: set<T>)
    requires a <= b && |a| == |b|
    ensures a == b
  {
    assert |b - a| == |b| - |a|;
  }

  lemma {:induction false} NormDistinct(fields: seq<Field>)
    requires DistinctKeys(KeyOf, fields)
    ensures DistinctKeys(KeyOf, NormFields(fields))
  {
    var r := NormFields(fields);
    forall i, j | 0 <= i < j < |r| ensures KeyOf(r[i]) != KeyOf(r[j]) {
      assert KeyOf(fields[i]) != KeyOf(fields[j]);
    }
  }

  lemma KeysApart(fields: seq<Field>, i: nat, j: nat)
    requires DistinctKeys(KeyOf, fields) && i < |fields| && j < |fields|
    ensures i != j ==> fields[i].key != fields[j].key
  {
    assert forall p, q :: 0 <= p < q < |fields| ==> KeyOf(fields[p]) != KeyOf(fields[q]);
  }

  lemma FieldIn(a: seq<Field>, b: seq<Field>, x: Field)
    requires DistinctKeys(KeyOf, b) && Keys(a) == Keys(b) && x in b
    requires forall i :: 0 <= i < |a| ==> a[i] in b
    ensures x in a
  {
    var j :| 0 <= j < |b| && b[j] == x;
    assert x.key in Keys(a);
    var i :| 0 <= i < |a| && a[i].key == x.key;
    var k :| 0 <= k < |b| && b[k] == a[i];
    KeysApart(b, j, k);
  }

  /** Objects whose normalised fields are each found in the other object normalise alike. */
  lemma NormObjects(fs: seq<Field>, gs: seq<Field>)
    requires DistinctKeys(KeyOf, fs) && DistinctKeys(KeyOf, gs) && |fs| == |gs|
    requires forall i :: 0 <= i < |fs| ==> NormFields(fs)[i] in NormFields(gs)
    ensures Norm(Obj(fs)) == Norm(Obj(gs))
  {
    hide Sort;
    var a, b := NormFields(fs), NormFields(gs);
    NormDistinct(fs); NormDistinct(gs);
    KeysCardinality(a); KeysCardinality(b);
    forall k | k in Keys(a) ensures k in Keys(b) {
      var i :| 0 <= i < |a| && a[i].key == k;
      var j :| 0 <= j < |b| && b[j] == a[i];
    }
    SubsetSameSize(Keys(a), Keys(b));
    forall x | x in b ensures x in a { FieldIn(a, b, x); }
    SortSorted(KeyOf, a); SortSorted(KeyOf, b);
    forall x ensures x in Sort(KeyOf, a) <==> x in Sort(KeyOf, b) {
      MultisetMember(Sort(KeyOf, a), a, x);
      MultisetMember(Sort(KeyOf, b), b, x);
    }
    StrictlySortedUnique(KeyOf, Sort(KeyOf, a), Sort(KeyOf, b));
  }

  lemma {:induction false} EqualImpliesNorm(v: Json, w: Json)
    requires WellFormed(v) && WellFormed(w) && JsonEqual(v, w)
    ensures Norm(v) == Norm(w)
    decreases v
  {
    match v
    case Arr(xs) =>
      forall i | 0 <= i < |xs| ensures Norm(xs[i]) == Norm(w.items[i]) {
        EqualImpliesNorm(xs[i], w.items[i]);
      }
    case Obj(fs) =>
      var gs := w.fields;
      forall i | 0 <= i < |fs| ensures NormFields(fs)[i] in NormFields(gs) {
        var o := Get(gs, fs[i].key);
        var j :| 0 <= j < |gs| && gs[j] == Field(fs[i].key, o.value);
        EqualImpliesNorm(fs[i].value, gs[j].value);
        assert NormFields(gs)[j] == NormFields(fs)[i];
      }
      NormObjects(fs, gs);
    case _ =>
  }

  lemma {:induction false} NormImpliesEqual(v: Json, w: Json)
    requires WellFormed(v) && WellFormed(w) && Norm(v) == Norm(w)
    ensures JsonEqual(v, w)
    decreases v
  {
    match v
    case Arr(xs) =>
      assert |xs| == |Norm(v).items| == |Norm(w).items| == |w.items|;
      forall i | 0 <= i < |xs| ensures JsonEqual(xs[i], w.items[i]) {
        assert Norm(v).items[i] == Norm(w).items[i];
        NormImpliesEqual(xs[i], w.items[i]);
      }
    case Obj(fs) =>
      var gs := w.fields;
      var a, b := NormFields(fs), NormFields(gs);
      assert |fs| == |Sort(KeyOf, a)| == |Sort(KeyOf, b)| == |gs|;
      forall i | 0 <= i < |fs|
        ensures Get(gs, fs[i].key).Some? && JsonEqual(fs[i].value, Get(gs, fs[i].key).value)
      {
        assert a[i] in multiset(a) && multiset(a) == multiset(b);
        MultisetMember(a, b, a[i]);
        var j :| 0 <= j < |b| && b[j] == a[i];
        GetField(gs, j);
        NormImpliesEqual(fs[i].value, gs[j].value);
      }
    case _ =>
  }

  /** Objects with the same properties are equal up to key order. */
  lemma SamePropertiesNorm(v: Json, w: Json)
    requires v.Obj? && w.Obj? && WellFormed(v) && WellFormed(w)
    requires forall key :: Property(v, key) == Property(w, key)
    ensures Norm(v) == Norm(w)
  {
    var fs, gs := v.fields, w.fields;
    KeysCardinality(fs); KeysCardinality(gs);
    forall key ensures key in Keys(fs) <==> key in Keys(gs) {
      KeysGet(fs, key); KeysGet(gs, key);
      assert Property(v, key) == Property(w, key);
    }
    assert Keys(fs) == Keys(gs);
    forall i | 0 <= i < |fs| ensures NormFields(fs)[i] in NormFields(gs) {
      GetField(fs, i);
      assert Property(w, fs[i].key) == Some(fs[i].value);
      var j :| 0 <= j < |gs| && gs[j] == fs[i];
      assert NormFields(gs)[j] == NormFields(fs)[i];
    }
    NormObjects(fs, gs);
  }

  lemma {:induction false} KeysGet(fields: seq<Field>, key: Text)
    ensures key in Keys(fields) <==> Get(fields, key).Some?
  {
    if Get(fields, key).Some? {
      var i :| 0 <= i < |fields| && fields[i] == Field(key, Get(fields, key).value);
    }
  }

  /** `jsonEqual` decides equality up to key order. */
  lemma JsonEqualIsNormEqual(v: Json, w: Json)
    requires WellFormed(v) && WellFormed(w)
    ensures JsonEqual(v, w) <==> Norm(v) == Norm(w)
  {
    if JsonEqual(v, w) { EqualImpliesNorm(v, w); }
    if Norm(v) == Norm(w) { NormImpliesEqual(v, w); }
  }

  /** Values equal up to key order have the same properties, up to key order. */
  lemma EqualProps(v: Json, w: Json, key: Text)
    requires WellFormed(v) && WellFormed(w) && JsonEqual(v, w)
    ensures Property(v, key).Some? <==> Property(w, key).Some?
    ensures Property(v, key).Some? ==> JsonEqual(Property(v, key).value, Property(w, key).value)
  {
    if v.Obj? {
      var fs, gs := v.fields, w.fields;
      KeysCardinality(fs); KeysCardinality(gs);
      forall k | k in Keys(fs) ensures k in Keys(gs) {
        var i :| 0 <= i < |fs| && fs[i].key == k;
        var o := Get(gs, fs[i].key);
        var j :| 0 <= j < |gs| && gs[j] == Field(k, o.value);
      }
      SubsetSameSize(Keys(fs), Keys(gs));
      if Get(fs, key).Some? {
        var i :| 0 <= i < |fs| && fs[i] == Field(key, Get(fs, key).value);
      }
      if Get(gs, key).Some? {
        var j :| 0 <= j < |gs| && gs[j] == Field(key, Get(gs, key).value);
        assert key in Keys(fs);
      }
    }
  }

  lemma GetOfTwo(f: Field, g: Field)
    requires f.key != g.key
    ensures Get([f, g], f.key) == Some(f.value) && Get([f, g], g.key) == Some(g.value)
  {
    assert [f, g][1..] == [g];
    assert Get([g], g.key) == Some(g.value);
  }
}
