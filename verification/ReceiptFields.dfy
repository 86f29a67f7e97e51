/** What a created receipt says, field by field, in terms of the arguments. */
module ReceiptFields {
  import opened JsText
  import opened Sorting
  import opened Json
  import opened CanonicalJson
  import opened Hashing
  import opened Merkle
  import opened Receipts

  /** A text that is given as a root, or as a digest without its prefix. */
  predicate GivenRoot(t: Option<Text>) { t.Some? ==> IsRoot(t.value) || IsDigest(t.value) }

  predicate GivenPrevious(a: ReceiptArgs)
  {
    if a.previous.None? then a.sequence == 0
    else a.previous.value == Lit("GENESIS") || IsRoot(a.previous.value) || IsDigest(a.previous.value)
  }

  ghost predicate GivenSigner(a: ReceiptArgs)
  {
    if a.signer.Some? then exists t :: t != [] && a.signer.value.keyId == Some(Str(t))
    else a.keyId != Some([])
  }

  /** `createReceipt` throws exactly for a negative number, an empty required text, a malformed root or hash, a missing
      previous hash after the first receipt, or a signer without a key id. */
  lemma CreatedExactly(c: Crypto, a: ReceiptArgs)
    ensures CreateReceipt(c, a).Ok? <==>
      && a.sequence >= 0 && [] !in [a.operation, a.tenantId, a.subjectId, a.timestamp]
      && GivenRoot(a.eventHash) && GivenRoot(a.activeSetRoot) && GivenRoot(a.receiptLogRoot)
      && GivenPrevious(a) && GivenSigner(a)
  {
    hide Ordered, Sealed, Body;
  }

  /** A root given by the caller, with its prefix, or else another one. */
  predicate IsRootOr(t: Text, given: Option<Text>, otherwise: Text)
  {
    if given.None? then t == otherwise
    else if IsRoot(given.value) then t == given.value
    else t == Lit("sha256:") + given.value
  }

  ghost predicate SaysText(receipt: Json, key: string, t: Text) { Property(receipt, Lit(key)) == Some(Str(t)) }

  ghost predicate SaysRoot(receipt: Json, key: string, given: Option<Text>, otherwise: Text)
  {
    exists t :: SaysText(receipt, key, t) && IsRootOr(t, given, otherwise)
  }

  function Given(a: ReceiptArgs, f: ReceiptField): Option<Json>
  {
    if f in a.optional then Some(a.optional[f]) else None
  }

  /** The hash of the event, the roots and the link of a created receipt. */
  lemma CreatedRoots(c: Crypto, a: ReceiptArgs)
    requires CreateReceipt(c, a).Ok?
    ensures var r, empty := CreateReceipt(c, a).value, Lit("sha256:") + c.hash(EMPTY_TEXT);
      && SaysRoot(r, "event_hash", a.eventHash,
           Lit("sha256:") + c.hash(Canonicalize(Obj(WithoutSecrets(a.event)))))
      && SaysRoot(r, "active_set_root", a.activeSetRoot, empty)
      && SaysRoot(r, "receipt_log_root", a.receiptLogRoot, empty)
      && if a.previous.None? || a.previous.value == Lit("GENESIS")
         then SaysText(r, "previous_receipt_hash", Lit("GENESIS"))
         else SaysRoot(r, "previous_receipt_hash", a.previous, [])
  {
    hide CreateReceipt, FieldOf, WithoutSecrets, Canonicalize, Lit, IsRoot, IsDigest, Property;
    CreatedLinks(c, a);
    var r, l := CreateReceipt(c, a).value, NormalizeLinks(c, a).value;
    Named(r, EventHash); Named(r, ActiveSetRoot); Named(r, ReceiptLogRoot); Named(r, PreviousReceiptHash);
    assert SaysText(r, "event_hash", l.eventHash);
    assert SaysText(r, "active_set_root", l.activeSetRoot);
    assert SaysText(r, "receipt_log_root", l.receiptLogRoot);
    assert SaysText(r, "previous_receipt_hash", l.previous);
  }

  lemma Named(r: Json, f: ReceiptField)
    ensures FieldOf(r, f) == Property(r, Lit(NameString(f)))
  {
  }

  lemma CreatedLinks(c: Crypto, a: ReceiptArgs)
    requires CreateReceipt(c, a).Ok?
    ensures NormalizeLinks(c, a).Ok?
    ensures var r, l := CreateReceipt(c, a).value, NormalizeLinks(c, a).value;
      && FieldOf(r, EventHash) == Some(Str(l.eventHash)) && FieldOf(r, ActiveSetRoot) == Some(Str(l.activeSetRoot))
      && FieldOf(r, ReceiptLogRoot) == Some(Str(l.receiptLogRoot))
      && FieldOf(r, PreviousReceiptHash) == Some(Str(l.previous))
  {
    hide NormalizeLinks, Ordered, Sealed, Body, FieldOf;
    CreatedHasBody(c, a);
  }

  /** The other fields of a created receipt that every receipt has. */
  lemma CreatedFields(c: Crypto, a: ReceiptArgs)
    requires CreateReceipt(c, a).Ok?
    ensures var r := CreateReceipt(c, a).value;
      && SaysText(r, "schema", Lit("enigma.receipt.v1")) && SaysText(r, "operation", a.operation)
      && SaysText(r, "tenant_id", a.tenantId) && SaysText(r, "subject_id", a.subjectId)
      && SaysText(r, "timestamp", a.timestamp)
      && Property(r, Lit("sequence")) == Some(Num(a.sequence))
  {
    hide CreateReceipt, NormalizeLinks, FieldOf, HasBody, Lit, SignerRecord;
    CreatedLinks(c, a);
    CreatedHasBody(c, a);
    var r, l := CreateReceipt(c, a).value, NormalizeLinks(c, a).value;
    BodySays(c, a, l, r, Schema); BodySays(c, a, l, r, Operation); BodySays(c, a, l, r, TenantId);
    BodySays(c, a, l, r, SubjectId); BodySays(c, a, l, r, Timestamp); BodySays(c, a, l, r, Sequence);
  }

  /** The fields of a created receipt that are there only if they are given. */
  lemma CreatedOptional(c: Crypto, a: ReceiptArgs)
    requires CreateReceipt(c, a).Ok?
    ensures var r := CreateReceipt(c, a).value;
      && Property(r, Lit("memory_addr")) == Given(a, MemoryAddr)
      && Property(r, Lit("source_addr")) == Given(a, SourceAddr)
      && Property(r, Lit("provider")) == Given(a, Provider) && Property(r, Lit("model")) == Given(a, Model)
      && Property(r, Lit("policy_id")) == Given(a, PolicyId)
  {
    hide CreateReceipt, NormalizeLinks, FieldOf, HasBody, Lit, Given, BodyField;
    CreatedLinks(c, a);
    CreatedHasBody(c, a);
    var r, l := CreateReceipt(c, a).value, NormalizeLinks(c, a).value;
    GivenSays(c, a, l, r, MemoryAddr); GivenSays(c, a, l, r, SourceAddr); GivenSays(c, a, l, r, Provider);
    GivenSays(c, a, l, r, Model); GivenSays(c, a, l, r, PolicyId);
  }

  lemma GivenSays(c: Crypto, a: ReceiptArgs, l: Links, r: Json, f: ReceiptField)
    requires HasBody(c, a, l, r) && f in {MemoryAddr, SourceAddr, Provider, Model, PolicyId}
    ensures Property(r, Lit(NameString(f))) == Given(a, f)
  {
    hide HasBody, Lit, Property;
    BodySays(c, a, l, r, f);
  }

  lemma BodySays(c: Crypto, a: ReceiptArgs, l: Links, r: Json, f: ReceiptField)
    requires HasBody(c, a, l, r) && f != ReceiptId && f != Signature
    ensures Property(r, Lit(NameString(f))) == BodyField(c, a, l, f)
  {
    hide BodyField;
    assert FieldOf(r, f) == BodyField(c, a, l, f);
  }

  /** The signer of a created receipt: the record of the caller, or the key id of the caller, or one derived from the
      public key. */
  lemma CreatedSigner(c: Crypto, a: ReceiptArgs)
    requires CreateReceipt(c, a).Ok?
    ensures var signer := Property(CreateReceipt(c, a).value, Lit("signer"));
      && signer.Some?
      && Property(signer.value, Lit("key_id"))
         == (if a.signer.Some? then a.signer.value.keyId
             else if a.keyId.Some? then Some(Str(a.keyId.value))
             else Some(Str(Lit("ed25519:") + c.hash(c.publicKey(a.privateKey))[..32])))
      && Property(signer.value, Lit("alg"))
         == (if a.signer.Some? && a.signer.value.alg !in {None, Some(Null)} then a.signer.value.alg
             else Some(Str(Lit("Ed25519"))))
  {
    hide Ordered, Sealed, Body, NormalizeLinks;
    var r, s := CreateReceipt(c, a).value, SignerRecord(c, a);
    CreatedHasBody(c, a);
    assert FieldOf(r, Signer) == Some(s);
    GetOfTwo(s.fields[0], s.fields[1]);
  }

  /** The event without its secrets: three keys read as absent, and every other key as in the event. */
  lemma {:induction false} WithoutSecretsGet(event: seq<Field>, key: Text)
    ensures Get(WithoutSecrets(event), key)
         == if key == Lit("privateKey") || key == Lit("signer") || key == Lit("signature") then None
            else Get(event, key)
  {
    hide Lit;
    if |event| > 0 {
      var f, rest := event[0], WithoutSecrets(event[1..]);
      WithoutSecretsGet(event[1..], key);
      var secret := f.key == Lit("privateKey") || f.key == Lit("signer") || f.key == Lit("signature");
      assert WithoutSecrets(event) == if secret then [] + rest else [f] + rest;
      hide WithoutSecrets;
      assert ([f] + rest)[1..] == rest && [] + rest == rest;
    }
  }

  // ----- Id and signature -----

  lemma {:induction false} WriteAppend(a: seq<ReceiptField>, b: seq<ReceiptField>, record: map<ReceiptField, Json>)
    ensures Write(a + b, record) == Write(a, record) + Write(b, record)
  {
    if |a| == 0 {
      assert a + b == b;
    } else {
      WriteAppend(a[1..], b, record);
      assert (a + b)[1..] == a[1..] + b;
      hide Name;
      var first := if a[0] in record then [Field(Name(a[0]), record[a[0]])] else [];
      assert Write(a, record) == first + Write(a[1..], record);
      assert Write(a + b, record) == first + Write((a + b)[1..], record);
      hide Write;
      AppendAssoc(first, Write(a[1..], record), Write(b, record));
    }
  }

  /** A field outside the list is not written. */
  lemma {:induction false} WriteOther(order: seq<ReceiptField>, record: map<ReceiptField, Json>, f: ReceiptField,
      v: Json)
    requires f !in order
    ensures Write(order, record[f := v]) == Write(order, record) == Write(order, record - {f})
  {
    if |order| > 0 {
      assert order[0] in order;
      WriteOther(order[1..], record, f, v);
    }
  }

  /** A receipt is the fields that were signed, and the signature as its last field; the id is the second of them, and
      is derived from the signed fields with an empty id. */
  lemma CreatedSealed(c: Crypto, a: ReceiptArgs)
    requires CreateReceipt(c, a).Ok?
    ensures var fields := CreateReceipt(c, a).value.fields;
      && |fields| > 2 && fields[1].key == Lit("receipt_id") && fields[|fields| - 1].key == Lit("signature")
      && var signed := fields[..|fields| - 1];
         && fields[1].value
            == Str(Lit("rcpt_") + c.hash(Canonicalize(Obj(signed[1 := Field(Lit("receipt_id"), Str([]))])))[..32])
         && fields[|fields| - 1].value
            == Obj([Field(Lit("alg"), Str(Lit("Ed25519"))),
                    Field(Lit("value"), Str(c.sign(Canonicalize(Obj(signed)), a.privateKey)))])
  {
    hide NormalizeLinks, Sealed, Write;
    var body := Body(c, a, NormalizeLinks(c, a).value);
    assert Schema in body && Signature !in body;
    hide Body;
    SealedFields(c, body, a.privateKey);
  }

  /** The fields between the id and the signature. */
  const MIDDLE: seq<ReceiptField> := FIELD_ORDER[2..17]

  /** A record with a schema and an id is written with these first and its signature last. */
  lemma WriteEnds(record: map<ReceiptField, Json>)
    requires Schema in record && ReceiptId in record
    ensures Write(FIELD_ORDER, record)
         == [Field(Lit("schema"), record[Schema]), Field(Lit("receipt_id"), record[ReceiptId])] + Write(MIDDLE, record)
            + if Signature in record then [Field(Lit("signature"), record[Signature])] else []
  {
    hide Write;
    WriteAppend([Schema, ReceiptId], MIDDLE, record);
    WriteAppend([Schema, ReceiptId] + MIDDLE, [Signature], record);
    assert [Schema, ReceiptId] + MIDDLE + [Signature] == FIELD_ORDER;
    WriteAppend([Schema], [ReceiptId], record);
    assert [Schema] + [ReceiptId] == [Schema, ReceiptId];
    WriteOne(Schema, record);
    WriteOne(ReceiptId, record);
    WriteOne(Signature, record);
  }

  lemma WriteOne(f: ReceiptField, record: map<ReceiptField, Json>)
    ensures Write([f], record) == if f in record then [Field(Name(f), record[f])] else []
  {
    assert [f][1..] == [];
  }

  lemma SealedFields(c: Crypto, body: map<ReceiptField, Json>, privateKey: Text)
    requires Schema in body && Signature !in body
    ensures var fields, unsigned := Ordered(Sealed(c, body, privateKey)).fields, body[ReceiptId := Str(IdOf(c, body))];
      && |fields| > 2
      && fields[1] == Field(Lit("receipt_id"), Str(IdOf(c, body)))
      && fields[|fields| - 1] == Field(Lit("signature"), SignatureRecord(c, unsigned, privateKey))
      && fields[..|fields| - 1] == Write(FIELD_ORDER, unsigned)
      && fields[..|fields| - 1][1 := Field(Lit("receipt_id"), Str([]))]
         == Write(FIELD_ORDER, body[ReceiptId := Str([])])
  {
    hide Write, IdOf, SignatureRecord;
    var id := Str(IdOf(c, body));
    var unsigned := body[ReceiptId := id];
    var signature := SignatureRecord(c, unsigned, privateKey);
    WriteEnds(unsigned[Signature := signature]);
    WriteEnds(unsigned);
    WriteEnds(body[ReceiptId := Str([])]);
    WriteOther(MIDDLE, unsigned, Signature, signature);
    WriteOther(MIDDLE, body, ReceiptId, id);
    WriteOther(MIDDLE, body, ReceiptId, Str([]));
    assert unsigned[Signature := signature] == Sealed(c, body, privateKey);
  }

  // ----- What a verified receipt says -----

  /** The object with the properties of a receipt, but for its signature, and with another id if one is given. */
  ghost predicate IsUnsigned(v: Json, u: Json, id: Option<Json>)
  {
    && u.Obj? && WellFormed(u)
    && forall key :: Property(u, key)
         == if key == Lit("signature") then None
            else if key == Lit("receipt_id") && id.Some? then id
            else Property(v, key)
  }

  lemma {:induction false} WriteDistinct(order: seq<ReceiptField>, record: map<ReceiptField, Json>)
    requires forall i, j :: 0 <= i < j < |order| ==> order[i] != order[j]
    ensures DistinctKeys(KeyOf, Write(order, record))
  {
    if |order| > 0 {
      hide Name;
      var rest := Write(order[1..], record);
      WriteDistinct(order[1..], record);
      if order[0] in record {
        var all := Write(order, record);
        assert all == [Field(Name(order[0]), record[order[0]])] + rest;
        hide Write;
        forall i, j | 0 <= i < j < |all| ensures KeyOf(all[i]) != KeyOf(all[j]) {
          if i > 0 {
            assert KeyOf(rest[i - 1]) != KeyOf(rest[j - 1]);
          } else {
            WriteApart(order, record, j - 1);
          }
        }
      }
    }
  }

  lemma WriteApart(order: seq<ReceiptField>, record: map<ReceiptField, Json>, j: nat)
    requires |order| > 0 && j < |Write(order[1..], record)|
    requires forall i, j :: 0 <= i < j < |order| ==> order[i] != order[j]
    ensures Write(order[1..], record)[j].key != Name(order[0])
  {
    hide Name, Write;
    WriteNames(order[1..], record, j);
    var f :| f in order[1..] && f in record && Write(order[1..], record)[j] == Field(Name(f), record[f]);
    if Name(f) == Name(order[0]) { NameInjective(f, order[0]); }
  }

  lemma OrderedWellFormed(record: map<ReceiptField, Json>)
    requires forall f :: f in record ==> WellFormed(record[f])
    ensures WellFormed(Ordered(record))
  {
    assert forall i, j :: 0 <= i < j < |FIELD_ORDER| ==> FIELD_ORDER[i] != FIELD_ORDER[j];
    hide Write, Name;
    var fields := Write(FIELD_ORDER, record);
    WriteDistinct(FIELD_ORDER, record);
    forall i | 0 <= i < |fields| ensures WellFormed(fields[i].value) {
      WriteNames(FIELD_ORDER, record, i);
    }
  }

  lemma OrderedOther(record: map<ReceiptField, Json>, key: Text)
    requires !IsKnownName(key)
    ensures Property(Ordered(record), key) == None
  {
    var fields := Write(FIELD_ORDER, record);
    if Get(fields, key).Some? {
      var i :| 0 <= i < |fields| && fields[i] == Field(key, Get(fields, key).value);
      WriteNames(FIELD_ORDER, record, i);
    }
  }

  /** The known fields of a receipt without unknown ones, but for the signature. */
  lemma KnownIsUnsigned(v: Json, id: Option<Json>)
    requires v.Obj? && WellFormed(v) && ShapeOk(v) && (id.Some? ==> WellFormed(id.value))
    ensures var known := KnownFields(v) - {Signature};
      IsUnsigned(v, Ordered(if id.Some? then known[ReceiptId := id.value] else known), id)
  {
    hide Ordered, Name, IsKnownName, IsPlaintextName, Lit, WellFormed;
    var known := KnownFields(v) - {Signature};
    var record := if id.Some? then known[ReceiptId := id.value] else known;
    var u := Ordered(record);
    forall f | f in record ensures WellFormed(record[f]) {
      if f in known { PropertyWellFormed(v, Name(f)); }
    }
    OrderedWellFormed(record);
    assert u.Obj? by { OrderedIsObject(record); }
    forall key ensures Property(u, key)
         == if key == Lit("signature") then None
            else if key == Lit("receipt_id") && id.Some? then id
            else Property(v, key)
    {
      NamesSpelled();
      if IsKnownName(key) {
        var f := FieldNamed(key);
        OrderedProperty(record, f);
        AllFieldsOrdered(f);
        if Name(f) == Name(Signature) { NameInjective(f, Signature); }
        if Name(f) == Name(ReceiptId) { NameInjective(f, ReceiptId); }
      } else {
        OrderedOther(record, key);
        UnknownAbsent(v, key);
        KnownNames();
      }
    }
  }

  lemma OrderedIsObject(record: map<ReceiptField, Json>)
    ensures Ordered(record).Obj?
  {
  }

  lemma NamesSpelled()
    ensures Name(Signature) == Lit("signature") && Name(ReceiptId) == Lit("receipt_id")
  {
  }

  lemma KnownNames()
    ensures IsKnownName(Name(Signature)) && IsKnownName(Name(ReceiptId))
  {
    AllFieldsOrdered(Signature);
    AllFieldsOrdered(ReceiptId);
  }

  lemma FieldNamed(key: Text) returns (f: ReceiptField)
    requires IsKnownName(key)
    ensures Name(f) == key
  {
    f :| f in FIELD_ORDER && Name(f) == key;
  }

  lemma UnknownAbsent(v: Json, key: Text)
    requires v.Obj? && ShapeOk(v) && !IsKnownName(key)
    ensures Property(v, key) == None
  {
    hide IsKnownName, IsPlaintextName;
  }

  lemma UnsignedAlike(v: Json, a: Json, b: Json, id: Option<Json>)
    requires IsUnsigned(v, a, id) && IsUnsigned(v, b, id)
    ensures Canonicalize(a) == Canonicalize(b)
  {
    hide WellFormed, Property, Norm;
    SamePropertiesNorm(a, b);
  }

  /** The id of a verified receipt is derived from its other fields but the signature. */
  lemma VerifiedId(c: Crypto, o: VerifyOptions, v: Json, u: Json)
    requires WellFormed(v) && ReceiptOk(c, o, v) && IsUnsigned(v, u, Some(Str([])))
    ensures SaysText(v, "receipt_id", Lit("rcpt_") + c.hash(Canonicalize(u))[..32])
  {
    assert WellFormed(Str([]));
    hide ShapeOk, SignerOk, SignatureOk, SequenceOk, RootShaped, PreviousOk, KnownFields, Ordered, Canonicalize,
      WellFormed, Property, IsUnsigned, SignatureVerifies, ResolvePublicKey, KeyIdOf, Lit;
    KnownIsUnsigned(v, Some(Str([])));
    UnsignedAlike(v, Ordered((KnownFields(v) - {Signature})[ReceiptId := Str([])]), u, Some(Str([])));
    Named(v, ReceiptId);
  }

  /** The signature of a verified receipt covers all its other fields, under the key of the options or the one that the
      options give for the signer. */
  lemma VerifiedSignature(c: Crypto, o: VerifyOptions, v: Json, u: Json) returns (key: Text, value: Text)
    requires WellFormed(v) && ReceiptOk(c, o, v) && IsUnsigned(v, u, None)
    ensures var signature := Property(v, Lit("signature"));
      signature.Some? && Property(signature.value, Lit("value")) == Some(Str(value))
    ensures c.check(Canonicalize(u), value, key)
    ensures o.publicKey.Some? ==> o.publicKey.value == key
    ensures o.publicKey.None? ==>
      exists name :: KeyIdOf(v) == Some(Str(name)) && name in o.publicKeys && o.publicKeys[name] == key
  {
    hide ShapeOk, SignerOk, SequenceOk, RootShaped, PreviousOk, KnownFields, Ordered, Canonicalize, WellFormed,
      Property, IsUnsigned, DeriveReceiptId, KeyIdOf, Lit, Truthy;
    KnownIsUnsigned(v, None);
    UnsignedAlike(v, Ordered(KnownFields(v) - {Signature}), u, None);
    Named(v, Signature);
    key, value := ResolvePublicKey(KeyIdOf(v), o).value, SignatureText(FieldOf(v, Signature)).value;
  }

  /** A root of a verified receipt, under any of the names of roots. */
  ghost predicate HasRoot(v: Json, key: string)
  {
    Property(v, Lit(key)).Some? && IsRoot(ToText(Property(v, Lit(key)).value))
  }

  /** The other fields of a verified receipt. */
  lemma VerifiedSays(c: Crypto, o: VerifyOptions, v: Json)
    requires ReceiptOk(c, o, v)
    ensures v.Obj? && SaysText(v, "schema", Lit("enigma.receipt.v1"))
    ensures exists n :: n >= 0 && Property(v, Lit("sequence")) == Some(Num(n))
    ensures var signer := Property(v, Lit("signer"));
      && signer.Some? && Property(signer.value, Lit("alg")) == Some(Str(Lit("Ed25519")))
      && (o.expectedSigner.Some? ==> Property(signer.value, Lit("key_id")) == Some(Str(o.expectedSigner.value)))
    ensures HasRoot(v, "event_hash") && HasRoot(v, "active_set_root") && HasRoot(v, "receipt_log_root")
    ensures HasRoot(v, "previous_receipt_hash") || SaysText(v, "previous_receipt_hash", Lit("GENESIS"))
  {
    hide ShapeOk, SignatureOk, SignatureVerifies, DeriveReceiptId, ResolvePublicKey, IsRoot, Lit, Property, ToText,
      Truthy;
    Named(v, Schema); Named(v, Sequence); Named(v, Signer); Named(v, EventHash); Named(v, ActiveSetRoot);
    Named(v, ReceiptLogRoot); Named(v, PreviousReceiptHash);
    assert FieldOf(v, Sequence) == Some(Num(FieldOf(v, Sequence).value.n));
  }

  /** A verified receipt has no unknown fields. */
  lemma VerifiedKnown(c: Crypto, o: VerifyOptions, v: Json, i: nat)
    requires ReceiptOk(c, o, v) && i < |v.fields|
    ensures exists f: ReceiptField :: v.fields[i].key == Lit(NameString(f))
  {
    assert IsKnownName(v.fields[i].key);
    var f := FieldNamed(v.fields[i].key);
  }
}
