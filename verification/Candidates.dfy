/** Memory candidates of import reports: duplicates, vault writes and custody counts. */
module Candidates {
  import opened JsText
  import opened Json
  import opened CanonicalJson
  import opened Hashing
  import opened MerkleSets
  import opened Receipts
  import opened FirstOfEach

  /** `rootOf`: the prefixed digest of a text, or of the canonical text of any other value. */
  function RootOf(h: HashFn, v: Json): Text { Prefixed(h(NormalizeLeaf(v))) }

  /** `asArray`. */
  function AsArray(v: Option<Json>): seq<Json>
  {
    match v
    case None => []
    case Some(Null) => []
    case Some(Arr(items)) => items
    case Some(w) => [w]
  }

  /** `filter(isRecord)`. */
  function Records(values: seq<Json>): seq<Json>
  {
    if |values| == 0 then []
    else (if values[0].Obj? then [values[0]] else []) + Records(values[1..])
  }

  lemma {:induction false} RecordsOfRecords(values: seq<Json>)
    requires forall i :: 0 <= i < |values| ==> values[i].Obj?
    ensures Records(values) == values
  {
    if |values| > 0 {
      RecordsOfRecords(values[1..]);
      assert values == [values[0]] + values[1..];
    }
  }

  lemma {:induction false} RecordsAreRecords(values: seq<Json>)
    ensures forall i :: 0 <= i < |Records(values)| ==> Records(values)[i].Obj?
  {
    if |values| > 0 { RecordsAreRecords(values[1..]); }
  }

  // ----- Duplicates -----

  const CANDIDATE_ID: Text := Lit("candidate_id")

  function IdOf(candidate: Json): Option<Json> { Property(candidate, CANDIDATE_ID) }

  predicate IsStructured(v: Json) { v.Arr? || v.Obj? }

  /** An id that is an array or an object is a key of its own in a JavaScript `Set`, equal to no other. */
  predicate HasStructuredId(candidate: Json) { IdOf(candidate).Some? && IsStructured(IdOf(candidate).value) }

  /** What tells candidates apart: the id, or the root of a candidate without one. */
  function KeyOf(h: HashFn, candidate: Json): Json
  {
    var id := IdOf(candidate);
    if id.None? || id.value.Null? then Str(RootOf(h, candidate)) else id.value
  }

  function Keys(h: HashFn, candidates: seq<Json>): set<Json>
  {
    set i | 0 <= i < |candidates| && candidates[i].Obj? && !HasStructuredId(candidates[i]) :: KeyOf(h, candidates[i])
  }

  /** The records whose key is not among the seen ones, the first of each key. */
  function Unseen(h: HashFn, candidates: seq<Json>, seen: set<Json>): (r: seq<Json>)
    ensures forall i :: 0 <= i < |r| ==> r[i].Obj?
  {
    if |candidates| == 0 then []
    else
      var c, rest := candidates[0], candidates[1..];
      if !c.Obj? then Unseen(h, rest, seen)
      else if HasStructuredId(c) then [c] + Unseen(h, rest, seen)
      else if KeyOf(h, c) in seen then Unseen(h, rest, seen)
      else [c] + Unseen(h, rest, seen + {KeyOf(h, c)})
  }

  function Unique(h: HashFn, candidates: seq<Json>): seq<Json> { Unseen(h, candidates, {}) }

  lemma {:induction false} UnseenSnoc(h: HashFn, candidates: seq<Json>, c: Json, seen: set<Json>)
    ensures Unseen(h, candidates + [c], seen)
      == Unseen(h, candidates, seen) + Unseen(h, [c], seen + Keys(h, candidates))
  {
    UnseenAppend(h, candidates, [c], seen);
  }

  lemma KeysCons(h: HashFn, candidates: seq<Json>)
    requires |candidates| > 0
    ensures var c := candidates[0];
      Keys(h, candidates) == (if c.Obj? && !HasStructuredId(c) then {KeyOf(h, c)} else {}) + Keys(h, candidates[1..])
  {
    var c, rest := candidates[0], candidates[1..];
    assert candidates == [c] + rest;
    forall k | k in Keys(h, rest) ensures k in Keys(h, candidates) {
      var i :| 0 <= i < |rest| && rest[i].Obj? && !HasStructuredId(rest[i]) && KeyOf(h, rest[i]) == k;
      assert candidates[i + 1] == rest[i];
    }
  }

  lemma {:induction false} UnseenAppend(h: HashFn, a: seq<Json>, b: seq<Json>, seen: set<Json>)
    ensures Unseen(h, a + b, seen) == Unseen(h, a, seen) + Unseen(h, b, seen + Keys(h, a))
    decreases |a|
  {
    hide KeyOf, HasStructuredId;
    if |a| == 0 {
      assert a + b == b && Keys(h, a) == {} && seen + {} == seen;
    } else {
      var c, rest := a[0], a[1..];
      assert (a + b)[1..] == rest + b;
      KeysCons(h, a);
      if c.Obj? && !HasStructuredId(c) && KeyOf(h, c) !in seen {
        var k := KeyOf(h, c);
        UnseenAppend(h, rest, b, seen + {k});
        assert seen + {k} + Keys(h, rest) == seen + Keys(h, a);
      } else {
        UnseenAppend(h, rest, b, seen);
        assert seen + Keys(h, rest) == seen + Keys(h, a);
      }
    }
  }

  /** Leaving duplicates out loses no key, and leaving them out again changes nothing. */
  lemma {:induction false} UnseenAgain(h: HashFn, candidates: seq<Json>, seen: set<Json>)
    ensures Unseen(h, Unseen(h, candidates, seen), seen) == Unseen(h, candidates, seen)
    ensures seen + Keys(h, Unseen(h, candidates, seen)) == seen + Keys(h, candidates)
    decreases |candidates|
  {
    hide KeyOf, HasStructuredId;
    if |candidates| > 0 {
      var c, rest := candidates[0], candidates[1..];
      KeysCons(h, candidates);
      if !c.Obj? || (!HasStructuredId(c) && KeyOf(h, c) in seen) {
        UnseenAgain(h, rest, seen);
      } else {
        var after := if HasStructuredId(c) then seen else seen + {KeyOf(h, c)};
        UnseenAgain(h, rest, after);
        var r := Unseen(h, candidates, seen);
        assert r[1..] == Unseen(h, rest, after);
        KeysCons(h, r);
      }
    }
  }

  lemma {:induction false} UnseenNone(h: HashFn, candidates: seq<Json>, seen: set<Json>)
    requires Keys(h, candidates) <= seen
    ensures Unseen(h, candidates, seen) == [] <==> NoStructuredIds(candidates)
    decreases |candidates|
  {
    hide KeyOf, HasStructuredId;
    if |candidates| > 0 {
      KeysCons(h, candidates);
      UnseenNone(h, candidates[1..], seen);
      assert candidates == [candidates[0]] + candidates[1..];
    }
  }

  predicate NoStructuredIds(candidates: seq<Json>)
  {
    forall i :: 0 <= i < |candidates| ==> candidates[i].Obj? ==> !HasStructuredId(candidates[i])
  }

  lemma KeysAppend(h: HashFn, a: seq<Json>, b: seq<Json>)
    ensures Keys(h, b) <= Keys(h, a + b)
  {
    forall k | k in Keys(h, b) ensures k in Keys(h, a + b) {
      var i :| 0 <= i < |b| && b[i].Obj? && !HasStructuredId(b[i]) && KeyOf(h, b[i]) == k;
      assert (a + b)[|a| + i] == b[i];
    }
  }

  /** The importer collects what the exporter stored and then the candidates of the reports once more: that adds
      nothing exactly when no report has a candidate with a structured id. */
  lemma CollectAgain(h: HashFn, own: seq<Json>, reported: seq<Json>)
    ensures var stored := Unique(h, own + reported);
      Unique(h, stored + reported) == stored <==> NoStructuredIds(reported)
    ensures var stored := Unique(h, own + reported);
      |Unique(h, stored + reported)| == |stored| <==> NoStructuredIds(reported)
  {
    hide Unseen, Keys, NoStructuredIds;
    var stored := Unique(h, own + reported);
    UnseenAppend(h, stored, reported, {});
    UnseenAgain(h, own + reported, {});
    KeysAppend(h, own, reported);
    SetIdentity(Keys(h, stored));
    SetIdentity(Keys(h, own + reported));
    UnseenNone(h, reported, {} + Keys(h, stored));
    assert stored + [] == stored;
  }

  lemma SetIdentity(s: set<Json>)
    ensures {} + s == s
  {
  }

  /** `uniqueCandidates`. */
  method UniqueCandidates(h: HashFn, candidates: seq<Json>) returns (out: seq<Json>)
    ensures out == Unique(h, candidates) == Kept(h, candidates, |candidates|)
  {
    hide KeyOf, HasStructuredId, Unseen, Keys;
    var seen: set<Json> := {};
    out := [];
    NothingUnseen(h);
    assert candidates[..0] == [];
    for i := 0 to |candidates|
      invariant out == Unseen(h, candidates[..i], {}) && seen == Keys(h, candidates[..i])
    {
      var c := candidates[i];
      assert candidates[..i + 1] == candidates[..i] + [c];
      UnseenSnoc(h, candidates[..i], c, {});
      SetIdentity(seen);
      OneUnseen(h, c, seen);
      KeysSnoc(h, candidates[..i], c);
      if c.Obj? {
        if HasStructuredId(c) {
          out := out + [c];
        } else if KeyOf(h, c) !in seen {
          seen := seen + {KeyOf(h, c)};
          out := out + [c];
        }
      }
    }
    assert candidates[..|candidates|] == candidates;
    UniqueExactly(h, candidates, |candidates|);
  }

  lemma NothingUnseen(h: HashFn)
    ensures Unseen(h, [], {}) == [] && Keys(h, []) == {}
  {
  }

  lemma OneUnseen(h: HashFn, c: Json, seen: set<Json>)
    ensures Unseen(h, [c], seen)
         == if c.Obj? && (HasStructuredId(c) || KeyOf(h, c) !in seen) then [c] else []
  {
    hide KeyOf, HasStructuredId;
    assert [c][1..] == [];
    assert [c] + [] == [c];
  }

  lemma KeysSnoc(h: HashFn, candidates: seq<Json>, c: Json)
    ensures Keys(h, candidates + [c])
      == Keys(h, candidates) + if c.Obj? && !HasStructuredId(c) then {KeyOf(h, c)} else {}
  {
    hide KeyOf, HasStructuredId;
    var all := candidates + [c];
    forall k | k in Keys(h, candidates) ensures k in Keys(h, all) {
      var i :| 0 <= i < |candidates| && candidates[i].Obj? && !HasStructuredId(candidates[i])
        && KeyOf(h, candidates[i]) == k;
      assert all[i] == candidates[i];
    }
    if c.Obj? && !HasStructuredId(c) { assert all[|candidates|] == c; }
  }

  /** An id that is neither missing nor null. */
  predicate HasId(candidate: Json) { Property(candidate, Lit("candidate_id")) !in {None, Some(Null)} }

  /** Two records count as the same candidate: by their ids, or by their content when they have none. */
  predicate SameCandidate(h: HashFn, a: Json, b: Json)
    requires a.Obj? && b.Obj?
  {
    var x := if HasId(a) then Property(a, Lit("candidate_id")) else Some(Str(Lit("sha256:") + h(Canonicalize(a))));
    var y := if HasId(b) then Property(b, Lit("candidate_id")) else Some(Str(Lit("sha256:") + h(Canonicalize(b))));
    x == y && !x.value.Arr? && !x.value.Obj?
  }

  /** A record is kept when no record before it is the same candidate. */
  predicate IsKept(h: HashFn, candidates: seq<Json>, k: int)
  {
    && 0 <= k < |candidates| && candidates[k].Obj?
    && forall j :: 0 <= j < k && candidates[j].Obj? ==> !SameCandidate(h, candidates[j], candidates[k])
  }

  /** The records that are kept, in order. */
  function Kept(h: HashFn, candidates: seq<Json>, n: nat): seq<Json>
    requires n <= |candidates|
  {
    if n == 0 then []
    else Kept(h, candidates, n - 1) + if IsKept(h, candidates, n - 1) then [candidates[n - 1]] else []
  }

  lemma SameKeys(h: HashFn, a: Json, b: Json)
    requires a.Obj? && b.Obj?
    ensures SameCandidate(h, a, b) <==> !HasStructuredId(a) && !HasStructuredId(b) && KeyOf(h, a) == KeyOf(h, b)
  {
    hide Canonicalize;
  }

  /** Removing duplicates keeps the first record of each candidate. */
  lemma {:induction false} UniqueExactly(h: HashFn, candidates: seq<Json>, n: nat)
    requires n <= |candidates|
    ensures Unique(h, candidates[..n]) == Kept(h, candidates, n)
  {
    if n == 0 {
      NothingUnseen(h);
      assert candidates[..0] == [];
    } else {
      hide KeyOf, HasStructuredId, Unseen, IsKept;
      var before, c := candidates[..n - 1], candidates[n - 1];
      UniqueExactly(h, candidates, n - 1);
      assert candidates[..n] == before + [c];
      UnseenSnoc(h, before, c, {});
      SetIdentity(Keys(h, before));
      OneUnseen(h, c, Keys(h, before));
      KeptHere(h, candidates, n - 1);
    }
  }

  lemma KeptHere(h: HashFn, candidates: seq<Json>, k: nat)
    requires k < |candidates|
    ensures var c := candidates[k];
      IsKept(h, candidates, k) <==> c.Obj? && (HasStructuredId(c) || KeyOf(h, c) !in Keys(h, candidates[..k]))
  {
    hide KeyOf, HasStructuredId, SameCandidate;
    var c := candidates[k];
    if c.Obj? {
      forall j | 0 <= j < k && candidates[j].Obj?
        ensures SameCandidate(h, candidates[j], c) <==>
          !HasStructuredId(candidates[j]) && !HasStructuredId(c) && KeyOf(h, candidates[j]) == KeyOf(h, c)
      {
        SameKeys(h, candidates[j], c);
      }
      if KeyOf(h, c) in Keys(h, candidates[..k]) {
        var j :| 0 <= j < |candidates[..k]| && candidates[..k][j].Obj? && !HasStructuredId(candidates[..k][j])
          && KeyOf(h, candidates[..k][j]) == KeyOf(h, c);
        assert candidates[j] == candidates[..k][j];
      }
      forall j | 0 <= j < k && candidates[j].Obj? && SameCandidate(h, candidates[j], c)
        ensures KeyOf(h, c) in Keys(h, candidates[..k])
      {
        assert candidates[..k][j] == candidates[j];
      }
    }
  }

  // ----- Vault writes -----

  datatype Write = Write(candidateId: Text, memoryAddr: Text, receiptHash: Text, eventId: Option<Text>)

  function TextProperty(v: Json, name: string): Option<Text>
  {
    match Property(v, Lit(name))
    case Some(Str(s)) => Some(s)
    case _ => None
  }

  /** `canonicalVaultWriteReceipt`: the write carries the receipt of a creation at its address, which hashes to
      the claimed value and verifies with the claimed key. */
  predicate HasCanonicalReceipt(c: Crypto, write: Json)
  {
    var receipt := Property(write, Lit("receipt"));
    var key := TextProperty(write, "receipt_public_key");
    && receipt.Some? && receipt.value.Obj? && key.Some?
    && var r := receipt.value;
       && FieldOf(r, Schema) == Some(Str(RECEIPT_SCHEMA)) && FieldOf(r, Operation) == Some(Str(Lit("create")))
       && FieldOf(r, MemoryAddr) == Property(write, Lit("memory_addr"))
       && IsText(FieldOf(r, ReceiptId)) && IsText(FieldOf(r, EventHash)) && IsText(FieldOf(r, ActiveSetRoot))
       && IsText(FieldOf(r, ReceiptLogRoot)) && IsText(FieldOf(r, PreviousReceiptHash)) && IsText(FieldOf(r, Timestamp))
       && FieldOf(r, Sequence).Some? && FieldOf(r, Sequence).value.Num?
       && SignerOk(r) && SignatureOk(r) && IsText(KeyIdOf(r)) && SignatureText(FieldOf(r, Signature)).Some?
       && Property(write, Lit("receipt_hash")) == Some(Str(RootOf(c.hash, r)))
       && ReceiptOk(c, VerifyOptions(Some(KeyIdOf(r).value.s), key, map[]), r)
  }

  predicate IsText(v: Option<Json>) { v.Some? && v.value.Str? }

  function WriteOf(write: Json): Option<Write>
  {
    var id, addr, hash :=
      TextProperty(write, "candidate_id"), TextProperty(write, "memory_addr"), TextProperty(write, "receipt_hash");
    if id.Some? && addr.Some? && hash.Some?
    then Some(Write(id.value, addr.value, hash.value, TextProperty(write, "event_id")))
    else None
  }

  /** The text that tells writes apart, with a zero unit between its three parts. */
  function WriteKey(w: Write): Text { w.candidateId + [0] + w.memoryAddr + [0] + w.receiptHash }

  predicate IsCanonicalWrite(c: Crypto, write: Json)
  {
    write.Obj? && WriteOf(write).Some? && HasCanonicalReceipt(c, write)
  }

  /** The keys of the writes that carry a verified receipt. */
  function WriteKeys(c: Crypto, writes: seq<Json>): (r: seq<Option<Text>>)
    ensures |r| == |writes|
  {
    seq(|writes|, i requires 0 <= i < |writes| =>
      if IsCanonicalWrite(c, writes[i]) then Some(WriteKey(WriteOf(writes[i]).value)) else None)
  }

  /** The writes with a verified receipt, the first of each key, in order. */
  function Writes(c: Crypto, writes: seq<Json>): (r: seq<Write>)
    ensures |r| == |Firsts(WriteKeys(c, writes))|
  {
    var firsts := Firsts(WriteKeys(c, writes));
    FirstsExactly(WriteKeys(c, writes));
    seq(|firsts|, i requires 0 <= i < |firsts| => WriteOf(writes[firsts[i]]).value)
  }

  /** `collectReportVaultWrites`: every result comes from a write with a verified receipt, no two results share a key,
      and every such write has a result with its key. */
  method CollectReportVaultWrites(c: Crypto, writes: seq<Json>) returns (out: seq<Write>)
    ensures out == Writes(c, writes)
    ensures forall i :: 0 <= i < |out| ==> IsResult(c, writes, out[i])
    ensures forall i, j :: 0 <= i < j < |out| ==> WriteKey(out[i]) != WriteKey(out[j])
    ensures forall k :: 0 <= k < |writes| && IsCanonicalWrite(c, writes[k]) ==>
      HasKey(out, WriteKey(WriteOf(writes[k]).value))
  {
    hide IsCanonicalWrite, WriteOf, WriteKey, Firsts, Seen, IsFirst;
    var seen: set<Text> := {};
    out := [];
    ghost var keys := WriteKeys(c, writes);
    NoWrites(c);
    assert keys[..0] == [];
    for i := 0 to |writes|
      invariant out == Writes(c, writes[..i]) && seen == Seen(keys[..i])
    {
      SeenSnoc(keys, i);
      WritesSnoc(c, writes, i);
      if IsCanonicalWrite(c, writes[i]) {
        CanonicalIsWrite(c, writes[i]);
        var write := WriteOf(writes[i]).value;
        var key := WriteKey(write);
        if key !in seen {
          seen := seen + {key};
          out := out + [write];
        }
      } else {
        NotFirst(keys, i);
      }
    }
    assert writes[..|writes|] == writes;
    WritesMeaning(c, writes);
  }

  lemma NoWrites(c: Crypto)
    ensures Writes(c, []) == [] && Seen([]) == {}
  {
  }

  lemma NotFirst(keys: seq<Option<Text>>, n: nat)
    requires n < |keys|
    ensures keys[n].None? ==> !IsFirst(keys, n)
  {
  }

  lemma CanonicalIsWrite(c: Crypto, write: Json)
    ensures IsCanonicalWrite(c, write) ==> WriteOf(write).Some?
  {
  }

  lemma WritesSnoc(c: Crypto, writes: seq<Json>, n: nat)
    requires n < |writes|
    ensures IsFirst(WriteKeys(c, writes), n) ==> WriteOf(writes[n]).Some?
    ensures Writes(c, writes[..n + 1])
         == Writes(c, writes[..n]) + if IsFirst(WriteKeys(c, writes), n) then [WriteOf(writes[n]).value] else []
  {
    hide WriteOf, WriteKey, HasCanonicalReceipt, Firsts, IsCanonicalWrite, IsFirst;
    var keys := WriteKeys(c, writes);
    if IsFirst(keys, n) { FirstIsCanonical(c, writes, n); }
    CanonicalIsWrite(c, writes[n]);
    KeysPrefix(c, writes, n);
    KeysPrefix(c, writes, n + 1);
    SeenSnoc(keys, n);
    PickedAlike(c, writes, n);
  }

  lemma FirstIsCanonical(c: Crypto, writes: seq<Json>, n: nat)
    requires n < |writes| && IsFirst(WriteKeys(c, writes), n)
    ensures IsCanonicalWrite(c, writes[n])
  {
    hide WriteOf, WriteKey, HasCanonicalReceipt, IsCanonicalWrite;
  }

  lemma KeysPrefix(c: Crypto, writes: seq<Json>, n: nat)
    requires n <= |writes|
    ensures WriteKeys(c, writes[..n]) == WriteKeys(c, writes)[..n]
  {
    hide WriteOf, WriteKey, IsCanonicalWrite;
  }

  /** The writes at the first positions are the same in a longer list. */
  lemma PickedAlike(c: Crypto, writes: seq<Json>, n: nat)
    requires n < |writes|
    ensures var firsts := Firsts(WriteKeys(c, writes[..n]));
      forall i :: 0 <= i < |firsts| ==>
        0 <= firsts[i] < n && WriteOf(writes[firsts[i]]).Some? && writes[..n][firsts[i]] == writes[..n + 1][firsts[i]]
  {
    hide WriteOf, WriteKey, HasCanonicalReceipt, Firsts, IsFirst, IsCanonicalWrite;
    var keys := WriteKeys(c, writes[..n]);
    var firsts := Firsts(keys);
    FirstsExactly(keys);
    forall i | 0 <= i < |firsts|
      ensures 0 <= firsts[i] < n && WriteOf(writes[firsts[i]]).Some?
      ensures writes[..n][firsts[i]] == writes[..n + 1][firsts[i]]
    {
      FirstInRange(keys, firsts[i]);
      FirstIsCanonical(c, writes[..n], firsts[i]);
      CanonicalIsWrite(c, writes[..n][firsts[i]]);
    }
  }

  ghost predicate IsResult(c: Crypto, writes: seq<Json>, w: Write)
  {
    exists k :: 0 <= k < |writes| && IsCanonicalWrite(c, writes[k]) && WriteOf(writes[k]) == Some(w)
  }

  ghost predicate HasKey(out: seq<Write>, key: Text) { exists i :: 0 <= i < |out| && WriteKey(out[i]) == key }

  lemma WritesMeaning(c: Crypto, writes: seq<Json>)
    ensures var out := Writes(c, writes);
      && (forall i :: 0 <= i < |out| ==> IsResult(c, writes, out[i]))
      && (forall i, j :: 0 <= i < j < |out| ==> WriteKey(out[i]) != WriteKey(out[j]))
      && (forall k :: 0 <= k < |writes| && IsCanonicalWrite(c, writes[k]) ==>
           HasKey(out, WriteKey(WriteOf(writes[k]).value)))
  {
    hide WriteOf, WriteKey, HasCanonicalReceipt, Firsts;
    var keys, out := WriteKeys(c, writes), Writes(c, writes);
    var firsts := Firsts(keys);
    FirstsExactly(keys);
    forall i | 0 <= i < |out| ensures IsResult(c, writes, out[i]) { assert IsFirst(keys, firsts[i]); }
    forall i, j | 0 <= i < j < |out| ensures WriteKey(out[i]) != WriteKey(out[j]) {
      FirstsDiffer(keys, i, j);
      assert IsFirst(keys, firsts[i]) && IsFirst(keys, firsts[j]);
    }
    forall k | 0 <= k < |writes| && IsCanonicalWrite(c, writes[k])
      ensures HasKey(out, WriteKey(WriteOf(writes[k]).value)) {
      var i := KeyKept(keys, k);
      assert IsFirst(keys, firsts[i]) && WriteKey(out[i]) == keys[k].value;
    }
  }

  function ReportWrites(reports: seq<Json>): seq<Json> { Gather(reports, Lit("vault_writes")) }

  /** `flatMap` over the arrays that records hold under a key. */
  function Gather(records: seq<Json>, key: Text): seq<Json>
  {
    if |records| == 0 then [] else AsArray(Property(records[0], key)) + Gather(records[1..], key)
  }

  // ----- Custody counts -----

  predicate HasUsableId(candidate: Json) { Truthy(IdOf(candidate)) }

  /** The scalar ids in use. */
  function Ids(candidates: seq<Json>): set<Json>
  {
    set i | 0 <= i < |candidates| && HasUsableId(candidates[i]) && !HasStructuredId(candidates[i]) ::
      IdOf(candidates[i]).value
  }

  function StructuredCount(candidates: seq<Json>): nat
  {
    if |candidates| == 0 then 0 else StructuredCount(candidates[1..]) + if HasStructuredId(candidates[0]) then 1 else 0
  }

  /** The positions of candidates whose id is an array or an object. */
  function StructuredPositions(candidates: seq<Json>, n: nat): set<int>
    requires n <= |candidates|
  {
    set j | 0 <= j < n && Property(candidates[j], Lit("candidate_id")).Some?
      && (var id := Property(candidates[j], Lit("candidate_id")).value; id.Arr? || id.Obj?)
  }

  lemma {:induction false} StructuredSnoc(candidates: seq<Json>, n: nat)
    requires n < |candidates|
    ensures StructuredCount(candidates[..n + 1])
         == StructuredCount(candidates[..n]) + if HasStructuredId(candidates[n]) then 1 else 0
  {
    hide HasStructuredId;
    if n > 0 {
      StructuredSnoc(candidates[1..], n - 1);
      assert candidates[..n + 1][1..] == candidates[1..][..n] && candidates[..n][1..] == candidates[1..][..n - 1];
    } else {
      assert candidates[..1][1..] == [] && candidates[..0] == [];
    }
  }

  /** Every structured id is counted. */
  lemma {:induction false} StructuredExactly(candidates: seq<Json>, n: nat)
    requires n <= |candidates|
    ensures StructuredCount(candidates[..n]) == |StructuredPositions(candidates, n)|
  {
    if n > 0 {
      StructuredExactly(candidates, n - 1);
      StructuredSnoc(candidates, n - 1);
      var before := StructuredPositions(candidates, n - 1);
      assert StructuredPositions(candidates, n)
        == before + if HasStructuredId(candidates[n - 1]) then {n - 1} else {};
    }
  }

  function Mapped(candidates: seq<Json>, writes: seq<Write>): seq<Write>
  {
    if |writes| == 0 then []
    else (if Str(writes[0].candidateId) in Ids(candidates) then [writes[0]] else []) + Mapped(candidates, writes[1..])
  }

  /** `mappedVaultWrites`. */
  function MappedVaultWrites(c: Crypto, candidates: seq<Json>, reports: seq<Json>): seq<Write>
  {
    Mapped(candidates, Writes(c, ReportWrites(reports)))
  }

  datatype CustodyCounts = CustodyCounts(canonical: nat, candidateOnly: nat, writes: nat)

  function WrittenIds(candidates: seq<Json>, writes: seq<Write>): set<Json>
  {
    set i | 0 <= i < |writes| && Str(writes[i].candidateId) in Ids(candidates) :: Str(writes[i].candidateId)
  }

  function Counts(candidates: seq<Json>, writes: seq<Write>): CustodyCounts
  {
    var size := |Ids(candidates)| + StructuredCount(candidates);
    var canonical := |WrittenIds(candidates, writes)|;
    CustodyCounts(canonical, if size - canonical > 0 then size - canonical else 0, |writes|)
  }

  /** `vaultWriteCounts`; the ids of the candidates are the scalar ones and one for each structured id. */
  method VaultWriteCounts(candidates: seq<Json>, writes: seq<Write>) returns (counts: CustodyCounts)
    ensures counts == Counts(candidates, writes)
  {
    hide Ids, StructuredCount;
    var ids := Ids(candidates);
    var canonicalIds: set<Json> := {};
    for i := 0 to |writes|
      invariant canonicalIds == WrittenIds(candidates, writes[..i])
    {
      if Str(writes[i].candidateId) in ids { canonicalIds := canonicalIds + {Str(writes[i].candidateId)}; }
      WrittenSnoc(candidates, writes, i);
    }
    assert writes[..|writes|] == writes;
    var size := |ids| + StructuredCount(candidates);
    counts := CustodyCounts(|canonicalIds|, if size - |canonicalIds| > 0 then size - |canonicalIds| else 0, |writes|);
  }

  lemma WrittenSnoc(candidates: seq<Json>, writes: seq<Write>, n: nat)
    requires n < |writes|
    ensures var id := Str(writes[n].candidateId);
      WrittenIds(candidates, writes[..n + 1])
        == WrittenIds(candidates, writes[..n]) + if id in Ids(candidates) then {id} else {}
  {
    hide Ids;
    var a, b := writes[..n], writes[..n + 1];
    assert b[n] == writes[n];
    forall k | k in WrittenIds(candidates, a) ensures k in WrittenIds(candidates, b) {
      var i :| 0 <= i < |a| && Str(a[i].candidateId) in Ids(candidates) && Str(a[i].candidateId) == k;
      assert b[i] == a[i];
    }
  }

  /** Every id is counted once, as written or as candidate only: the lower bound of zero is never needed. */
  lemma CustodyConserved(candidates: seq<Json>, writes: seq<Write>)
    ensures var n := Counts(candidates, writes);
      n.canonical + n.candidateOnly == |Ids(candidates)| + StructuredCount(candidates) && n.canonical <= n.writes
  {
    hide Ids, StructuredCount;
    assert WrittenIds(candidates, writes) <= Ids(candidates);
    SubsetSize(WrittenIds(candidates, writes), Ids(candidates));
    WrittenAtMost(candidates, writes);
  }

  lemma SubsetSize(a: set<Json>, b: set<Json>)
    requires a <= b
    ensures |a| <= |b|
  {
    assert |b - a| == |b| - |a|;
  }

  lemma {:induction false} WrittenAtMost(candidates: seq<Json>, writes: seq<Write>)
    ensures |WrittenIds(candidates, writes)| <= |writes|
  {
    hide Ids;
    if |writes| > 0 {
      var n := |writes| - 1;
      WrittenAtMost(candidates, writes[..n]);
      WrittenSnoc(candidates, writes, n);
      assert writes[..n + 1] == writes;
    }
  }

  datatype Custody = CandidateOnly | VaultWriteBacked | Empty

  /** `custodyStatus`. */
  function CustodyStatus(n: CustodyCounts): Custody
  {
    if n.candidateOnly > 0 then CandidateOnly else if n.canonical > 0 then VaultWriteBacked else Empty
  }

  /** The custody is backed by vault writes exactly when there are ids and each of them is written. */
  lemma BackedExactly(candidates: seq<Json>, writes: seq<Write>)
    ensures CustodyStatus(Counts(candidates, writes)) == VaultWriteBacked <==>
      (Ids(candidates) != {} && StructuredCount(candidates) == 0 && WrittenIds(candidates, writes) == Ids(candidates))
  {
    hide StructuredCount, Ids;
    CustodyConserved(candidates, writes);
    assert WrittenIds(candidates, writes) <= Ids(candidates);
    SubsetSize(WrittenIds(candidates, writes), Ids(candidates));
    if |WrittenIds(candidates, writes)| == |Ids(candidates)| {
      SubsetSameSize(WrittenIds(candidates, writes), Ids(candidates));
    }
  }
}
