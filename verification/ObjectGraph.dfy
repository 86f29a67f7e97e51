/** `canonicalize` on arbitrary JavaScript values: objects are shared by reference, may form cycles,
    and may hold what JSON cannot express. */
module ObjectGraph {
  import opened JsText
  import opened Sorting
  import opened Json
  import opened CanonicalJson

  /** `Unsupported` is undefined, a function, a symbol, a bigint, a non-finite number or an array hole. */
  datatype Val = Prim(json: Json) | Unsupported | Ref(ref: nat)

  datatype Prop = Prop(key: Text, value: Val)

  /** `Exotic` is an object that is neither an array nor a plain object. */
  datatype Node = ArrayNode(items: seq<Val>) | PlainNode(props: seq<Prop>) | Exotic

  type Heap = map<nat, Node>

  predicate IsPrim(j: Json) { !j.Arr? && !j.Obj? }

  predicate ValOk(g: Heap, v: Val)
  {
    match v
    case Prim(j) => IsPrim(j)
    case Unsupported => true
    case Ref(r) => r in g
  }

  function PropKey(p: Prop): Text { p.key }

  predicate NodeOk(g: Heap, n: Node)
  {
    match n
    case ArrayNode(items) => forall i :: 0 <= i < |items| ==> ValOk(g, items[i])
    case PlainNode(props) =>
      && (forall i :: 0 <= i < |props| ==> ValOk(g, props[i].value))
      && forall i, j :: 0 <= i < j < |props| ==> props[i].key != props[j].key
    case Exotic => true
  }

  /** Every reference is to an object of the heap, and the property names of an object are distinct. */
  ghost predicate Closed(g: Heap)
  {
    forall r :: r in g ==> NodeOk(g, g[r])
  }

  datatype Outcome<+T> = Done(value: T) | Circular | CannotEncode

  /** `canonicalizeValue`, with `seen` holding the objects of the current path. */
  ghost function Canon(g: Heap, v: Val, seen: set<nat>): Outcome<Text>
    requires Closed(g) && ValOk(g, v)
    decreases |g.Keys - seen|, 0
  {
    match v
    case Prim(j) => Done(Print(j))
    case Unsupported => CannotEncode
    case Ref(r) =>
      if r in seen then Circular
      else
        assert |g.Keys - (seen + {r})| < |g.Keys - seen| by { Shrinks(g, seen, r); }
        match g[r]
        case Exotic => CannotEncode
        case ArrayNode(items) =>
          assert NodeOk(g, g[r]);
          (match CanonItems(g, items, seen + {r})
           case Done(ts) => Done([OPEN_BRACKET] + Join(ts) + [CLOSE_BRACKET])
           case Circular => Circular
           case CannotEncode => CannotEncode)
        case PlainNode(props) =>
          assert NodeOk(g, g[r]);
          SortedPropsOk(g, props);
          (match CanonProps(g, Sort(PropKey, props), seen + {r})
           case Done(ts) => Done([OPEN_BRACE] + Join(ts) + [CLOSE_BRACE])
           case Circular => Circular
           case CannotEncode => CannotEncode)
  }

  ghost function CanonItems(g: Heap, items: seq<Val>, seen: set<nat>): (r: Outcome<seq<Text>>)
    requires Closed(g) && forall i :: 0 <= i < |items| ==> ValOk(g, items[i])
    ensures r.Done? ==> |r.value| == |items|
    decreases |g.Keys - seen|, 1 + |items|
  {
    if |items| == 0 then Done([])
    else
      var n := |items| - 1;
      match CanonItems(g, items[..n], seen)
      case Done(ts) =>
        (match Canon(g, items[n], seen)
         case Done(t) => Done(ts + [t])
         case Circular => Circular
         case CannotEncode => CannotEncode)
      case Circular => Circular
      case CannotEncode => CannotEncode
  }

  function PropValue(p: Prop): Val { p.value }

  ghost function CanonProps(g: Heap, props: seq<Prop>, seen: set<nat>): Outcome<seq<Text>>
    requires Closed(g) && forall i :: 0 <= i < |props| ==> ValOk(g, props[i].value)
    decreases |g.Keys - seen|, 2 + |props|
  {
    match CanonItems(g, Map(PropValue, props), seen)
    case Done(ts) =>
      Done(seq(|props|, i requires 0 <= i < |props| => Quote(props[i].key) + [COLON] + ts[i]))
    case Circular => Circular
    case CannotEncode => CannotEncode
  }

  lemma Shrinks(g: Heap, seen: set<nat>, r: nat)
    requires r in g && r !in seen
    ensures |g.Keys - (seen + {r})| < |g.Keys - seen|
  {
    assert g.Keys - seen == (g.Keys - (seen + {r})) + {r};
  }

  lemma SortedPropsOk(g: Heap, props: seq<Prop>)
    requires forall i :: 0 <= i < |props| ==> ValOk(g, props[i].value)
    ensures forall i :: 0 <= i < |props| ==> Sort(PropKey, props)[i] in props && ValOk(g, Sort(PropKey, props)[i].value)
  {
    var s := Sort(PropKey, props);
    forall i | 0 <= i < |props| ensures s[i] in props && ValOk(g, s[i].value) {
      assert s[i] in s;
      MultisetMember(s, props, s[i]);
    }
  }

  lemma {:induction false} ItemsDone(g: Heap, items: seq<Val>, seen: set<nat>)
    requires Closed(g) && forall i :: 0 <= i < |items| ==> ValOk(g, items[i])
    ensures CanonItems(g, items, seen).Done? <==> forall i :: 0 <= i < |items| ==> Canon(g, items[i], seen).Done?
    ensures CanonItems(g, items, seen).Done? ==> var ts := CanonItems(g, items, seen).value;
      |ts| == |items| && forall i :: 0 <= i < |items| ==> Canon(g, items[i], seen) == Done(ts[i])
  {
    if |items| > 0 { ItemsDone(g, items[..|items| - 1], seen); }
  }

  lemma PropsDone(g: Heap, props: seq<Prop>, seen: set<nat>)
    requires Closed(g) && forall i :: 0 <= i < |props| ==> ValOk(g, props[i].value)
    ensures CanonProps(g, props, seen).Done? <==> forall i :: 0 <= i < |props| ==> Canon(g, props[i].value, seen).Done?
    ensures CanonProps(g, props, seen).Done? ==> var ts := CanonProps(g, props, seen).value;
      && |ts| == |props|
      && forall i :: 0 <= i < |props| ==>
           && Canon(g, props[i].value, seen).Done?
           && ts[i] == Quote(props[i].key) + [COLON] + Canon(g, props[i].value, seen).value
  {
    ItemsDone(g, Map(PropValue, props), seen);
  }

  // ----- Rejection is exactly a reachable cycle or a reachable value that JSON cannot express -----

  ghost predicate HasChild(g: Heap, r: nat, v: Val)
  {
    r in g &&
    match g[r]
    case ArrayNode(items) => v in items
    case PlainNode(props) => exists i :: 0 <= i < |props| && props[i].value == v
    case Exotic => false
  }

  /** The objects met on a walk from a value along properties and array items. */
  ghost predicate IsPath(g: Heap, v: Val, p: seq<nat>)
    decreases |p|
  {
    && |p| > 0 && v == Ref(p[0]) && p[0] in g
    && (|p| > 1 ==> HasChild(g, p[0], Ref(p[1])) && IsPath(g, Ref(p[1]), p[1..]))
  }

  ghost predicate Repeats(p: seq<nat>) { exists i, j :: 0 <= i < j < |p| && p[i] == p[j] }

  ghost predicate Stuck(g: Heap, r: nat)
  {
    r in g && (g[r].Exotic? || HasChild(g, r, Unsupported))
  }

  ghost predicate Offends(g: Heap, v: Val)
  {
    v.Unsupported? || exists p :: IsPath(g, v, p) && (Repeats(p) || Stuck(g, p[|p| - 1]))
  }

  /** An object is printed exactly when it is not on the current path, is an array or a plain object,
      and each of its children is printed below it. */
  lemma RefDone(g: Heap, r: nat, seen: set<nat>)
    requires Closed(g) && r in g
    ensures Canon(g, Ref(r), seen).Done? <==>
      && r !in seen && !g[r].Exotic?
      && forall c :: HasChild(g, r, c) ==> ValOk(g, c) && Canon(g, c, seen + {r}).Done?
  {
    assert NodeOk(g, g[r]);
    match g[r]
    case Exotic =>
    case ArrayNode(items) => ItemsDone(g, items, seen + {r});
    case PlainNode(props) =>
      SortedPropsOk(g, props);
      var s := Sort(PropKey, props);
      PropsDone(g, s, seen + {r});
      forall c | HasChild(g, r, c) ensures exists i :: 0 <= i < |s| && s[i].value == c {
        var i :| 0 <= i < |props| && props[i].value == c;
        MultisetMember(s, props, props[i]);
        var k :| 0 <= k < |s| && s[k] == props[i];
      }
      forall i | 0 <= i < |s| ensures HasChild(g, r, s[i].value) {
        var k :| 0 <= k < |props| && props[k] == s[i];
      }
  }

  lemma NotReference(g: Heap, v: Val, seen: set<nat>)
    requires Closed(g) && ValOk(g, v)
    ensures !v.Ref? ==> (Canon(g, v, seen).Done? <==> v.Prim?)
  {
  }

  lemma LongerPath(r: nat, q: seq<nat>, seen: set<nat>)
    requires r !in seen && !Repeats(q) && |q| > 0
    requires forall i :: 0 <= i < |q| ==> q[i] !in seen + {r}
    ensures var p := [r] + q;
      !Repeats(p) && p[|p| - 1] == q[|q| - 1] && forall i :: 0 <= i < |p| ==> p[i] !in seen
  {
    var p := [r] + q;
    forall i, j | 0 <= i < j < |p| ensures p[i] != p[j] {
      assert p[j] == q[j - 1];
      assert i > 0 ==> p[i] == q[i - 1];
    }
  }

  lemma {:induction false} AcceptedPath(g: Heap, v: Val, seen: set<nat>, p: seq<nat>)
    requires Closed(g) && ValOk(g, v) && Canon(g, v, seen).Done? && IsPath(g, v, p)
    ensures forall i :: 0 <= i < |p| ==> p[i] !in seen
    ensures !Repeats(p) && !Stuck(g, p[|p| - 1])
    decreases |p|
  {
    hide Canon, NodeOk;
    RefDone(g, p[0], seen);
    if |p| == 1 {
      NotReference(g, Unsupported, seen + {p[0]});
    } else {
      AcceptedPath(g, Ref(p[1]), seen + {p[0]}, p[1..]);
      LongerPath(p[0], p[1..], seen);
      assert p == [p[0]] + p[1..];
    }
  }

  lemma RejectedChild(g: Heap, r: nat, seen: set<nat>) returns (c: Val)
    requires Closed(g) && r in g && r !in seen && !g[r].Exotic? && !Canon(g, Ref(r), seen).Done?
    ensures HasChild(g, r, c) && ValOk(g, c) && !Canon(g, c, seen + {r}).Done?
  {
    RefDone(g, r, seen);
    c :| HasChild(g, r, c) && !(ValOk(g, c) && Canon(g, c, seen + {r}).Done?);
    assert NodeOk(g, g[r]);
  }

  lemma PathAbove(g: Heap, r: nat, q: seq<nat>)
    requires |q| > 0 && HasChild(g, r, Ref(q[0])) && IsPath(g, Ref(q[0]), q)
    ensures var p := [r] + q;
      IsPath(g, Ref(r), p) && p[1..] == q && p[|p| - 1] == q[|q| - 1] && (Repeats(q) || q[|q| - 1] == r ==> Repeats(p))
  {
    var p := [r] + q;
    if Repeats(q) {
      var i, j :| 0 <= i < j < |q| && q[i] == q[j];
      assert p[i + 1] == p[j + 1];
    } else if q[|q| - 1] == r {
      assert p[0] == p[|p| - 1];
    }
  }

  lemma {:induction false} RejectedPath(g: Heap, v: Val, seen: set<nat>) returns (p: seq<nat>)
    requires Closed(g) && ValOk(g, v) && !Canon(g, v, seen).Done?
    ensures v.Unsupported? || (IsPath(g, v, p) && (p[|p| - 1] in seen || Repeats(p) || Stuck(g, p[|p| - 1])))
    decreases |g.Keys - seen|
  {
    hide Canon, NodeOk;
    p := [];
    NotReference(g, v, seen);
    if v.Ref? {
      var r := v.ref;
      if r in seen || g[r].Exotic? || HasChild(g, r, Unsupported) {
        p := [r];
      } else {
        var c := RejectedChild(g, r, seen);
        Shrinks(g, seen, r);
        var q := RejectedPath(g, c, seen + {r});
        p := [r] + q;
        PathAbove(g, r, q);
      }
    }
  }

  /** `canonicalize` accepts exactly the values from which no cycle and nothing inexpressible can be reached. */
  lemma AcceptsExactly(g: Heap, v: Val)
    requires Closed(g) && ValOk(g, v)
    ensures Canon(g, v, {}).Done? <==> !Offends(g, v)
  {
    if Canon(g, v, {}).Done? {
      forall p | IsPath(g, v, p) ensures !Repeats(p) && !Stuck(g, p[|p| - 1]) {
        AcceptedPath(g, v, {}, p);
      }
    } else {
      var p := RejectedPath(g, v, {});
    }
  }

  // ----- Shared objects print as if copied -----

  /** The finite JSON value that a graph value becomes when every shared object is copied. */
  ghost predicate Unfolds(g: Heap, v: Val, j: Json)
    decreases j
  {
    match j
    case Arr(items) =>
      && v.Ref? && v.ref in g && g[v.ref].ArrayNode? && |g[v.ref].items| == |items|
      && forall i :: 0 <= i < |items| ==> Unfolds(g, g[v.ref].items[i], items[i])
    case Obj(fields) =>
      && v.Ref? && v.ref in g && g[v.ref].PlainNode? && |g[v.ref].props| == |fields|
      && forall i :: 0 <= i < |fields| ==>
           g[v.ref].props[i].key == fields[i].key && Unfolds(g, g[v.ref].props[i].value, fields[i].value)
    case _ => v == Prim(j)
  }

  lemma {:induction false} UnfoldsUnique(g: Heap, v: Val, j: Json, k: Json)
    requires Closed(g) && ValOk(g, v) && Unfolds(g, v, j) && Unfolds(g, v, k)
    ensures j == k
    decreases j
  {
    match j
    case Arr(items) =>
      assert NodeOk(g, g[v.ref]);
      forall i | 0 <= i < |items| ensures items[i] == k.items[i] {
        UnfoldsUnique(g, g[v.ref].items[i], items[i], k.items[i]);
      }
      assert items == k.items;
    case Obj(fields) =>
      assert NodeOk(g, g[v.ref]);
      forall i | 0 <= i < |fields| ensures fields[i] == k.fields[i] {
        UnfoldsUnique(g, g[v.ref].props[i].value, fields[i].value, k.fields[i].value);
      }
      assert fields == k.fields;
    case _ =>
  }

  lemma {:induction false} AcceptedUnfolds(g: Heap, v: Val, seen: set<nat>) returns (j: Json)
    requires Closed(g) && ValOk(g, v) && Canon(g, v, seen).Done?
    ensures Unfolds(g, v, j)
    decreases |g.Keys - seen|, 0
  {
    match v
    case Prim(p) => j := p;
    case Ref(r) =>
      RefDone(g, r, seen);
      assert NodeOk(g, g[r]);
      Shrinks(g, seen, r);
      match g[r]
      case ArrayNode(items) =>
        var js := AcceptedItems(g, items, seen + {r});
        j := Arr(js);
      case PlainNode(props) =>
        var js := AcceptedItems(g, Map(PropValue, props), seen + {r});
        j := Obj(seq(|props|, i requires 0 <= i < |props| => Field(props[i].key, js[i])));
  }

  lemma {:induction false} AcceptedItems(g: Heap, items: seq<Val>, seen: set<nat>) returns (js: seq<Json>)
    requires Closed(g)
    requires forall i :: 0 <= i < |items| ==> ValOk(g, items[i]) && Canon(g, items[i], seen).Done?
    ensures |js| == |items| && forall i :: 0 <= i < |items| ==> Unfolds(g, items[i], js[i])
    decreases |g.Keys - seen|, 1 + |items|
  {
    if |items| == 0 {
      js := [];
    } else {
      var n := |items| - 1;
      js := AcceptedItems(g, items[..n], seen);
      var j := AcceptedUnfolds(g, items[n], seen);
      js := js + [j];
    }
  }

  /** A value with an unfolding smaller than that of every object on the path is accepted. */
  lemma {:induction false} UnfoldsAccepted(g: Heap, v: Val, j: Json, seen: set<nat>)
    requires Closed(g) && ValOk(g, v) && Unfolds(g, v, j)
    requires forall r, k :: r in seen && Unfolds(g, Ref(r), k) ==> j < k
    ensures Canon(g, v, seen).Done?
    decreases j
  {
    if v.Ref? {
      var r := v.ref;
      assert NodeOk(g, g[r]);
      forall c | HasChild(g, r, c) ensures ValOk(g, c) && Canon(g, c, seen + {r}).Done? {
        var i := ChildIndex(g, r, c);
        var jc := if j.Arr? then j.items[i] else j.fields[i].value;
        assert Unfolds(g, c, jc) && jc < j;
        forall q, k | q in seen + {r} && Unfolds(g, Ref(q), k) ensures jc < k {
          if q == r { UnfoldsUnique(g, v, j, k); }
        }
        UnfoldsAccepted(g, c, jc, seen + {r});
      }
      RefDone(g, r, seen);
    }
  }

  lemma ChildIndex(g: Heap, r: nat, c: Val) returns (i: nat)
    requires HasChild(g, r, c)
    ensures g[r].ArrayNode? ==> i < |g[r].items| && g[r].items[i] == c
    ensures g[r].PlainNode? ==> i < |g[r].props| && g[r].props[i].value == c
  {
    if g[r].ArrayNode? {
      i :| 0 <= i < |g[r].items| && g[r].items[i] == c;
    } else {
      i :| 0 <= i < |g[r].props| && g[r].props[i].value == c;
    }
  }

  datatype Pair = Pair(prop: Prop, field: Field)

  function PairKey(p: Pair): Text { p.prop.key }
  function PairProp(p: Pair): Prop { p.prop }
  function PairField(p: Pair): Field { Field(p.field.key, Norm(p.field.value)) }

  lemma ArrayText(g: Heap, r: nat, seen: set<nat>, items: seq<Json>)
    requires Closed(g) && r in g && r !in seen && g[r].ArrayNode? && |g[r].items| == |items| && NodeOk(g, g[r])
    requires forall i :: 0 <= i < |items| ==> Canon(g, g[r].items[i], seen + {r}) == Done(Canonicalize(items[i]))
    ensures Canon(g, Ref(r), seen) == Done(Canonicalize(Arr(items)))
  {
    var below := seen + {r};
    ItemsDone(g, g[r].items, below);
    var ts := CanonItems(g, g[r].items, below).value;
    assert ts == PrintItems(Norm(Arr(items)).items);
  }

  ghost predicate PairPrinted(g: Heap, seen: set<nat>, p: Pair)
  {
    && Closed(g) && ValOk(g, p.prop.value) && p.prop.key == p.field.key
    && Canon(g, p.prop.value, seen) == Done(Canonicalize(p.field.value))
  }

  lemma PairsText(g: Heap, seen: set<nat>, pairs: seq<Pair>)
    requires Closed(g)
    requires forall i :: 0 <= i < |pairs| ==> ValOk(g, pairs[i].prop.value) && PairPrinted(g, seen, pairs[i])
    ensures CanonProps(g, Map(PairProp, pairs), seen) == Done(PrintFields(Map(PairField, pairs)))
  {
    var props := Map(PairProp, pairs);
    forall i | 0 <= i < |props| ensures Canon(g, props[i].value, seen) == Done(Canonicalize(pairs[i].field.value)) {
      assert PairPrinted(g, seen, pairs[i]);
    }
    PropsDone(g, props, seen);
    var ts := CanonProps(g, props, seen).value;
    forall i | 0 <= i < |ts| ensures ts[i] == PrintField(PairField(pairs[i])) {
      assert PairPrinted(g, seen, pairs[i]);
    }
    assert ts == PrintFields(Map(PairField, pairs));
  }

  lemma ObjectPairs(g: Heap, props: seq<Prop>, seen: set<nat>, fields: seq<Field>)
    requires Closed(g) && |props| == |fields|
    requires forall i :: 0 <= i < |fields| ==>
      ValOk(g, props[i].value) && PairPrinted(g, seen, Pair(props[i], fields[i]))
    ensures forall i :: 0 <= i < |props| ==> ValOk(g, Sort(PropKey, props)[i].value)
    ensures CanonProps(g, Sort(PropKey, props), seen) == Done(PrintFields(Sort(KeyOf, NormFields(fields))))
  {
    SortedPropsOk(g, props);
    var pairs := seq(|props|, i requires 0 <= i < |props| => Pair(props[i], fields[i]));
    var sorted := Sort(PairKey, pairs);
    forall i | 0 <= i < |props| ensures props[i].key == fields[i].key {
      assert PairPrinted(g, seen, Pair(props[i], fields[i]));
    }
    SortPairs(props, fields, pairs);
    forall i | 0 <= i < |sorted| ensures ValOk(g, sorted[i].prop.value) && PairPrinted(g, seen, sorted[i]) {
      assert sorted[i] in sorted;
      MultisetMember(sorted, pairs, sorted[i]);
    }
    PairsText(g, seen, sorted);
  }

  lemma ObjectText(g: Heap, r: nat, seen: set<nat>, fields: seq<Field>)
    requires Closed(g) && r in g && r !in seen && g[r].PlainNode? && |g[r].props| == |fields| && NodeOk(g, g[r])
    requires forall i :: 0 <= i < |fields| ==> PairPrinted(g, seen + {r}, Pair(g[r].props[i], fields[i]))
    ensures Canon(g, Ref(r), seen) == Done(Canonicalize(Obj(fields)))
  {
    hide Sort, Join, PrintFields, NormFields, PairPrinted, CanonProps, CanonItems;
    ObjectPairs(g, g[r].props, seen + {r}, fields);
  }

  lemma {:induction false} UnfoldsText(g: Heap, v: Val, seen: set<nat>, j: Json)
    requires Closed(g) && ValOk(g, v) && Unfolds(g, v, j) && Canon(g, v, seen).Done?
    ensures Canon(g, v, seen) == Done(Canonicalize(j))
    decreases j
  {
    if v.Ref? {
      RefDone(g, v.ref, seen);
      assert NodeOk(g, g[v.ref]);
    }
    match j
    case Arr(items) =>
      forall i | 0 <= i < |items|
        ensures Canon(g, g[v.ref].items[i], seen + {v.ref}) == Done(Canonicalize(items[i]))
      {
        UnfoldsText(g, g[v.ref].items[i], seen + {v.ref}, items[i]);
      }
      ArrayText(g, v.ref, seen, items);
    case Obj(fields) =>
      forall i | 0 <= i < |fields|
        ensures PairPrinted(g, seen + {v.ref}, Pair(g[v.ref].props[i], fields[i]))
      {
        assert HasChild(g, v.ref, g[v.ref].props[i].value);
        UnfoldsText(g, g[v.ref].props[i].value, seen + {v.ref}, fields[i].value);
      }
      ObjectText(g, v.ref, seen, fields);
    case _ =>
  }

  lemma SortPairs(props: seq<Prop>, fields: seq<Field>, pairs: seq<Pair>)
    requires |props| == |fields| == |pairs|
    requires forall i :: 0 <= i < |pairs| ==> pairs[i] == Pair(props[i], fields[i]) && props[i].key == fields[i].key
    ensures Sort(PropKey, props) == Map(PairProp, Sort(PairKey, pairs))
    ensures Sort(KeyOf, NormFields(fields)) == Map(PairField, Sort(PairKey, pairs))
  {
    SortMap(PairKey, PropKey, PairProp, pairs);
    assert Map(PairProp, pairs) == props;
    forall y | y in pairs ensures KeyOf(PairField(y)) == PairKey(y) { }
    SortMap(PairKey, KeyOf, PairField, pairs);
    assert Map(PairField, pairs) == NormFields(fields);
  }

  lemma UnfoldingPrinted(g: Heap, v: Val, j: Json)
    requires Closed(g) && ValOk(g, v) && Unfolds(g, v, j)
    ensures Canon(g, v, {}) == Done(Canonicalize(j))
  {
    UnfoldsAccepted(g, v, j, {});
    UnfoldsText(g, v, {}, j);
  }

  /** `canonicalize` accepts a value exactly when copying every shared object gives a finite JSON value,
      and then prints the canonical text of that value. */
  lemma SharedAsCopied(g: Heap, v: Val)
    requires Closed(g) && ValOk(g, v)
    ensures Canon(g, v, {}).Done? <==> exists j :: Unfolds(g, v, j)
    ensures forall j :: Unfolds(g, v, j) ==> Canon(g, v, {}) == Done(Canonicalize(j))
  {
    if Canon(g, v, {}).Done? {
      var j := AcceptedUnfolds(g, v, {});
      assert Unfolds(g, v, j);
      assert exists j :: Unfolds(g, v, j);
    } else if exists j :: Unfolds(g, v, j) {
      var j :| Unfolds(g, v, j);
      UnfoldingPrinted(g, v, j);
    }
    forall j | Unfolds(g, v, j) ensures Canon(g, v, {}) == Done(Canonicalize(j)) {
      UnfoldingPrinted(g, v, j);
    }
  }

  lemma ItemsSnoc(g: Heap, items: seq<Val>, seen: set<nat>, i: nat)
    requires Closed(g) && i < |items| && forall k :: 0 <= k < |items| ==> ValOk(g, items[k])
    requires CanonItems(g, items[..i], seen).Done?
    ensures CanonItems(g, items[..i + 1], seen) == match Canon(g, items[i], seen)
      case Done(t) => Done(CanonItems(g, items[..i], seen).value + [t])
      case Circular => Circular
      case CannotEncode => CannotEncode
  {
    assert items[..i + 1][..i] == items[..i];
  }

  /** The recursion itself, with its one mutable set of objects on the current path. */
  class Canonicalizer {
    const g: Heap
    var seen: set<nat>

    constructor (g: Heap)
      ensures this.g == g && seen == {}
    {
      this.g := g;
      seen := {};
    }

    /** `canonicalizeValue`: the set is restored on every way out. */
    method CanonicalizeValue(v: Val) returns (r: Outcome<Text>)
      requires Closed(g) && ValOk(g, v)
      modifies this`seen
      ensures seen == old(seen)
      ensures r == Canon(g, v, old(seen))
      decreases |g.Keys - seen|, 0
    {
      match v
      case Prim(j) => r := Done(Print(j));
      case Unsupported => r := CannotEncode;
      case Ref(ref) =>
        if ref in seen { return Circular; }
        Shrinks(g, seen, ref);
        assert NodeOk(g, g[ref]);
        ghost var before := seen;
        seen := seen + {ref};
        match g[ref] {
          case Exotic => r := CannotEncode;
          case ArrayNode(items) =>
            var texts := CanonicalizeAll(items);
            r := match texts
              case Done(ts) => Done([OPEN_BRACKET] + Join(ts) + [CLOSE_BRACKET])
              case Circular => Circular
              case CannotEncode => CannotEncode;
          case PlainNode(props) =>
            SortedPropsOk(g, props);
            var sorted := Sort(PropKey, props);
            var texts := CanonicalizeAll(Map(PropValue, sorted));
            r := match texts
              case Done(ts) =>
                Done([OPEN_BRACE]
                     + Join(seq(|sorted|, i requires 0 <= i < |sorted| => Quote(sorted[i].key) + [COLON] + ts[i]))
                     + [CLOSE_BRACE])
              case Circular => Circular
              case CannotEncode => CannotEncode;
        }
        seen := seen - {ref};
        assert seen == before;
    }

    method CanonicalizeAll(items: seq<Val>) returns (r: Outcome<seq<Text>>)
      requires Closed(g) && forall i :: 0 <= i < |items| ==> ValOk(g, items[i])
      modifies this`seen
      ensures seen == old(seen)
      ensures r == CanonItems(g, items, old(seen))
      decreases |g.Keys - seen|, 1
    {
      var texts: seq<Text> := [];
      for i := 0 to |items|
        invariant seen == old(seen)
        invariant CanonItems(g, items[..i], old(seen)) == Done(texts)
      {
        ItemsSnoc(g, items, old(seen), i);
        var t := CanonicalizeValue(items[i]);
        if !t.Done? {
          FailsEarly(g, items, old(seen), i + 1);
          return if t.Circular? then Circular else CannotEncode;
        }
        texts := texts + [t.value];
      }
      assert items[..|items|] == items;
      r := Done(texts);
    }
  }

  lemma {:induction false} FailsEarly(g: Heap, items: seq<Val>, seen: set<nat>, n: nat)
    requires Closed(g) && n <= |items| && forall i :: 0 <= i < |items| ==> ValOk(g, items[i])
    requires !CanonItems(g, items[..n], seen).Done?
    ensures CanonItems(g, items, seen) == CanonItems(g, items[..n], seen)
  {
    var m := |items| - 1;
    if n == |items| {
      assert items[..n] == items;
    } else {
      assert items[..m][..n] == items[..n];
      FailsEarly(g, items[..m], seen, n);
    }
  }
}
