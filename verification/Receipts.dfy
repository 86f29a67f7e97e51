/** Signed receipts: their fields, derived id, creation and verification. */
module Receipts {
  import opened JsText
  import opened Json
  import opened CanonicalJson
  import opened Hashing
  import opened Merkle
  import opened HashChain

  /** The primitives of `node:crypto` that receipts use, on texts. */
  datatype Crypto = Crypto(
    hash: HashFn,
    sign: (Text, Text) -> Text,          // payload, private key
    check: (Text, Text, Text) -> bool,   // payload, signature, public key
    publicKey: Text -> Text)             // of a private key

  /** A signature made with a private key is non-empty and verifies with the matching public key. */
  ghost predicate SignatureLaw(c: Crypto)
  {
    forall payload, key :: c.sign(payload, key) != [] && c.check(payload, c.sign(payload, key), c.publicKey(key))
  }

  const RECEIPT_SCHEMA: Text := Lit("enigma.receipt.v1")
  const ED25519: Text := Lit("Ed25519")
  const KEY_ID: Text := Lit("key_id")
  const ALG: Text := Lit("alg")
  const VALUE: Text := Lit("value")

  // ----- Fields -----

  datatype ReceiptField =
    | Schema | ReceiptId | EventHash | Operation | TenantId | SubjectId | MemoryAddr | SourceAddr | Provider
    | Model | PolicyId | Sequence | PreviousReceiptHash | ActiveSetRoot | ReceiptLogRoot | Timestamp | Signer
    | Signature

  /** The order in which `orderReceiptFields` writes the fields. */
  const FIELD_ORDER: seq<ReceiptField> :=
    [Schema, ReceiptId, EventHash, Operation, TenantId, SubjectId, MemoryAddr, SourceAddr, Provider,
     Model, PolicyId, Sequence, PreviousReceiptHash, ActiveSetRoot, ReceiptLogRoot, Timestamp, Signer, Signature]

  function Name(f: ReceiptField): Text { Lit(NameString(f)) }

  function NameString(f: ReceiptField): string
  {
    match f
    case Schema => "schema"
    case ReceiptId => "receipt_id"
    case EventHash => "event_hash"
    case Operation => "operation"
    case TenantId => "tenant_id"
    case SubjectId => "subject_id"
    case MemoryAddr => "memory_addr"
    case SourceAddr => "source_addr"
    case Provider => "provider"
    case Model => "model"
    case PolicyId => "policy_id"
    case Sequence => "sequence"
    case PreviousReceiptHash => "previous_receipt_hash"
    case ActiveSetRoot => "active_set_root"
    case ReceiptLogRoot => "receipt_log_root"
    case Timestamp => "timestamp"
    case Signer => "signer"
    case Signature => "signature"
  }

  /** Length, first unit and last unit of a field name, which together identify it. */
  function Mark(f: ReceiptField): (nat, int, int)
  {
    match f
    case Schema => (6, 115, 97)
    case ReceiptId => (10, 114, 100)
    case EventHash => (10, 101, 104)
    case Operation => (9, 111, 110)
    case TenantId => (9, 116, 100)
    case SubjectId => (10, 115, 100)
    case MemoryAddr => (11, 109, 114)
    case SourceAddr => (11, 115, 114)
    case Provider => (8, 112, 114)
    case Model => (5, 109, 108)
    case PolicyId => (9, 112, 100)
    case Sequence => (8, 115, 101)
    case PreviousReceiptHash => (21, 112, 104)
    case ActiveSetRoot => (15, 97, 116)
    case ReceiptLogRoot => (16, 114, 116)
    case Timestamp => (9, 116, 112)
    case Signer => (6, 115, 114)
    case Signature => (9, 115, 101)
  }

  lemma NameMark(f: ReceiptField)
    ensures var n := Name(f); |n| > 0 && Mark(f) == (|n|, n[0], n[|n| - 1])
  {
  }

  lemma NameInjective(f: ReceiptField, g: ReceiptField)
    requires Name(f) == Name(g)
    ensures f == g
  {
    NameMark(f);
    NameMark(g);
  }

  /** A record with known fields only, written in the order of a field list. */
  function Write(order: seq<ReceiptField>, record: map<ReceiptField, Json>): seq<Field>
  {
    if |order| == 0 then []
    else (if order[0] in record then [Field(Name(order[0]), record[order[0]])] else []) + Write(order[1..], record)
  }

  /** `orderReceiptFields`. */
  function Ordered(record: map<ReceiptField, Json>): Json { Obj(Write(FIELD_ORDER, record)) }

  /** The known fields that a value has. */
  function KnownFields(v: Json): map<ReceiptField, Json>
  {
    map f: ReceiptField | f in FIELD_ORDER && Property(v, Name(f)).Some? :: Property(v, Name(f)).value
  }

  lemma {:induction false} WriteGet(order: seq<ReceiptField>, record: map<ReceiptField, Json>, f: ReceiptField)
    ensures Get(Write(order, record), Name(f)) == if f in order && f in record then Some(record[f]) else None
  {
    if |order| > 0 {
      WriteGet(order[1..], record, f);
      if Name(order[0]) == Name(f) { NameInjective(order[0], f); }
      var rest := Write(order[1..], record);
      assert ([Field(Name(order[0]), Null)] + rest)[1..] == rest;
      assert order[0] in record ==> Write(order, record)[1..] == rest;
      assert order[0] !in record ==> Write(order, record) == rest;
    }
  }

  lemma AllFieldsOrdered(f: ReceiptField)
    ensures f in FIELD_ORDER
  {
    var i := match f
      case Schema => 0 case ReceiptId => 1 case EventHash => 2 case Operation => 3 case TenantId => 4
      case SubjectId => 5 case MemoryAddr => 6 case SourceAddr => 7 case Provider => 8 case Model => 9
      case PolicyId => 10 case Sequence => 11 case PreviousReceiptHash => 12 case ActiveSetRoot => 13
      case ReceiptLogRoot => 14 case Timestamp => 15 case Signer => 16 case Signature => 17;
    assert FIELD_ORDER[i] == f;
  }

  /** Reading back an ordered record gives the record. */
  lemma OrderedProperty(record: map<ReceiptField, Json>, f: ReceiptField)
    ensures Property(Ordered(record), Name(f)) == if f in record then Some(record[f]) else None
  {
    WriteGet(FIELD_ORDER, record, f);
    AllFieldsOrdered(f);
  }

  lemma KnownFieldsOrdered(record: map<ReceiptField, Json>)
    ensures KnownFields(Ordered(record)) == record
  {
    forall f: ReceiptField ensures f in KnownFields(Ordered(record)) <==> f in record {
      OrderedProperty(record, f);
      AllFieldsOrdered(f);
    }
    forall f | f in record ensures KnownFields(Ordered(record))[f] == record[f] {
      OrderedProperty(record, f);
    }
  }

  lemma {:induction false} WriteNames(order: seq<ReceiptField>, record: map<ReceiptField, Json>, i: nat)
    requires i < |Write(order, record)|
    ensures exists f :: f in order && f in record && Write(order, record)[i] == Field(Name(f), record[f])
  {
    hide Name;
    var head := if order[0] in record then [Field(Name(order[0]), record[order[0]])] else [];
    if i < |head| {
      assert order[0] in order;
    } else {
      WriteNames(order[1..], record, i - |head|);
      var f :| f in order[1..] && f in record && Write(order[1..], record)[i - |head|] == Field(Name(f), record[f]);
      assert f in order;
    }
  }

  // ----- Verification -----

  datatype VerifyOptions = VerifyOptions(
    expectedSigner: Option<Text>, publicKey: Option<Text>, publicKeys: map<Text, Text>)

  const PLAINTEXT_KEYS: seq<Text> :=
    [Lit("body"), Lit("content"), Lit("plaintext"), Lit("text"), Lit("memory"), Lit("prompt"), Lit("response"),
     Lit("raw_memory")]

  predicate IsKnownName(key: Text) { exists f: ReceiptField :: f in FIELD_ORDER && Name(f) == key }

  predicate IsPlaintextName(key: Text) { key in PLAINTEXT_KEYS }

  predicate IsSignatureName(key: Text) { key in [ALG, VALUE] }

  predicate Truthy(o: Option<Json>)
  {
    o.Some? && match o.value
      case Null => false
      case Bool(b) => b
      case Num(n) => n != 0
      case Str(s) => s != []
      case _ => true
  }

  /** Everything but the five falsy values is truthy, empty arrays and objects included. */
  lemma TruthyExactly(o: Option<Json>)
    ensures Truthy(o) <==> o !in {None, Some(Null), Some(Bool(false)), Some(Num(0)), Some(Str([]))}
  {
  }

  /** `ROOT_RE.test(value ?? '')`, which tests the text of any value. */
  predicate RootShaped(o: Option<Json>)
  {
    o.Some? && !o.value.Null? && IsRoot(ToText(o.value))
  }

  function FieldOf(v: Json, f: ReceiptField): Option<Json> { Property(v, Name(f)) }

  function KeyIdOf(v: Json): Option<Json>
  {
    var s := FieldOf(v, Signer);
    if s.Some? then Property(s.value, KEY_ID) else None
  }

  predicate SignerOk(v: Json)
  {
    var s := FieldOf(v, Signer);
    s.Some? && s.value.Obj? && Property(s.value, ALG) == Some(Str(ED25519)) && Truthy(Property(s.value, KEY_ID))
  }

  predicate SignatureOk(v: Json)
  {
    var s := FieldOf(v, Signature);
    s.Some? && s.value.Obj? && Property(s.value, ALG) == Some(Str(ED25519)) && Truthy(Property(s.value, VALUE))
  }

  predicate SequenceOk(o: Option<Json>) { o.Some? && o.value.Num? && o.value.n >= 0 }

  predicate PreviousOk(o: Option<Json>) { o == Some(Str(GENESIS)) || RootShaped(o) }

  /** `unsignedReceipt`. */
  function UnsignedReceipt(v: Json): Json { Ordered(KnownFields(v) - {Signature}) }

  function IdOf(c: Crypto, record: map<ReceiptField, Json>): Text
  {
    Lit("rcpt_") + c.hash(Canonicalize(Ordered(record[ReceiptId := Str([])])))[..32]
  }

  /** `deriveReceiptId`. */
  function DeriveReceiptId(c: Crypto, v: Json): Text { IdOf(c, KnownFields(v) - {Signature}) }

  function ResolvePublicKey(keyId: Option<Json>, o: VerifyOptions): Option<Text>
  {
    if o.publicKey.Some? then o.publicKey
    else if keyId.Some? && keyId.value.Str? && keyId.value.s in o.publicKeys then Some(o.publicKeys[keyId.value.s])
    else None
  }

  function SignatureText(o: Option<Json>): Option<Text>
  {
    if o.None? then None
    else
      var value := if o.value.Obj? then Property(o.value, VALUE) else o;
      if value.Some? && value.value.Str? then Some(value.value.s) else None
  }

  /** `verifySignature` on a receipt. */
  predicate SignatureVerifies(c: Crypto, v: Json, key: Text)
  {
    var s := SignatureText(FieldOf(v, Signature));
    s.Some? && c.check(Canonicalize(UnsignedReceipt(v)), s.value, key)
  }

  predicate ShapeOk(v: Json)
    requires v.Obj?
  {
    && (forall i :: 0 <= i < |v.fields| ==> IsKnownName(v.fields[i].key) && !IsPlaintextName(v.fields[i].key))
    && var s := FieldOf(v, Signature);
       s.Some? && s.value.Obj? ==> forall i :: 0 <= i < |s.value.fields| ==> IsSignatureName(s.value.fields[i].key)
  }

  /** What a receipt that `verifyReceipt` accepts satisfies. */
  predicate ReceiptOk(c: Crypto, o: VerifyOptions, v: Json)
  {
    && v.Obj? && ShapeOk(v)
    && FieldOf(v, Schema) == Some(Str(RECEIPT_SCHEMA))
    && SignerOk(v) && SignatureOk(v) && SequenceOk(FieldOf(v, Sequence))
    && RootShaped(FieldOf(v, EventHash)) && RootShaped(FieldOf(v, ActiveSetRoot))
    && RootShaped(FieldOf(v, ReceiptLogRoot)) && PreviousOk(FieldOf(v, PreviousReceiptHash))
    && (o.expectedSigner.Some? ==> KeyIdOf(v) == Some(Str(o.expectedSigner.value)))
    && FieldOf(v, ReceiptId) == Some(Str(DeriveReceiptId(c, v)))
    && var key := ResolvePublicKey(KeyIdOf(v), o);
       key.Some? && SignatureVerifies(c, v, key.value)
  }

  datatype ReceiptError =
    | NotAnObject | UnknownField(key: Text) | PlaintextField(key: Text) | UnknownSignatureField(key: Text)
    | SchemaMismatch | SignerMismatch | SignatureMissing | BadSequence | BadEventHash | BadActiveSetRoot
    | BadReceiptLogRoot | BadPreviousHash | WrongSigner | ReceiptIdMismatch | MissingPublicKey | SignatureMismatch

  /** The keys of an object that are not known names or are names of plaintext. */
  method CollectKeyErrors(fields: seq<Field>, known: Text -> bool, plaintext: Text -> bool)
    returns (errors: seq<ReceiptError>)
    ensures errors == [] <==> forall k :: 0 <= k < |fields| ==> known(fields[k].key) && !plaintext(fields[k].key)
  {
    errors := [];
    for i := 0 to |fields|
      invariant errors == [] <==> forall k :: 0 <= k < i ==> known(fields[k].key) && !plaintext(fields[k].key)
    {
      var key := fields[i].key;
      if !known(key) { errors := errors + [UnknownField(key)]; }
      if plaintext(key) { errors := errors + [PlaintextField(key)]; }
    }
  }

  method CollectSignatureErrors(fields: seq<Field>, known: Text -> bool) returns (errors: seq<ReceiptError>)
    ensures errors == [] <==> forall k :: 0 <= k < |fields| ==> known(fields[k].key)
  {
    errors := [];
    for i := 0 to |fields|
      invariant errors == [] <==> forall k :: 0 <= k < i ==> known(fields[k].key)
    {
      if !known(fields[i].key) { errors := errors + [UnknownSignatureField(fields[i].key)]; }
    }
  }

  /** `validateReceiptShape`. */
  method ValidateShape(v: Json) returns (errors: seq<ReceiptError>)
    requires v.Obj?
    ensures errors == [] <==> ShapeOk(v)
  {
    errors := CollectKeyErrors(v.fields, IsKnownName, IsPlaintextName);
    var s := FieldOf(v, Signature);
    if s.Some? && s.value.Obj? {
      var more := CollectSignatureErrors(s.value.fields, IsSignatureName);
      errors := errors + more;
    }
  }

  /** `verifyReceipt`. */
  method VerifyReceipt(c: Crypto, o: VerifyOptions, v: Json) returns (errors: seq<ReceiptError>)
    ensures errors == [] <==> ReceiptOk(c, o, v)
  {
    hide ShapeOk, SignerOk, SignatureOk, SignatureVerifies, SequenceOk, RootShaped, PreviousOk, FieldOf, KeyIdOf,
      DeriveReceiptId, ResolvePublicKey;
    if !v.Obj? { return [NotAnObject]; }
    errors := ValidateShape(v);
    errors := PushUnless(errors, FieldOf(v, Schema) == Some(Str(RECEIPT_SCHEMA)), SchemaMismatch);
    errors := PushUnless(errors, SignerOk(v), SignerMismatch);
    errors := PushUnless(errors, SignatureOk(v), SignatureMissing);
    errors := PushUnless(errors, SequenceOk(FieldOf(v, Sequence)), BadSequence);
    errors := PushUnless(errors, RootShaped(FieldOf(v, EventHash)), BadEventHash);
    errors := PushUnless(errors, RootShaped(FieldOf(v, ActiveSetRoot)), BadActiveSetRoot);
    errors := PushUnless(errors, RootShaped(FieldOf(v, ReceiptLogRoot)), BadReceiptLogRoot);
    errors := PushUnless(errors, PreviousOk(FieldOf(v, PreviousReceiptHash)), BadPreviousHash);
    errors := PushUnless(errors, o.expectedSigner.Some? ==> KeyIdOf(v) == Some(Str(o.expectedSigner.value)),
      WrongSigner);
    errors := PushUnless(errors, FieldOf(v, ReceiptId) == Some(Str(DeriveReceiptId(c, v))), ReceiptIdMismatch);
    var key := ResolvePublicKey(KeyIdOf(v), o);
    if key.None? {
      errors := errors + [MissingPublicKey];
    } else {
      errors := PushUnless(errors, SignatureVerifies(c, v, key.value), SignatureMismatch);
    }
  }

  // ----- Creation -----

  /** A signer record given by the caller; its key id is `key_id ?? keyId`. */
  datatype SignerArg = SignerArg(keyId: Option<Json>, alg: Option<Json>)

  datatype ReceiptArgs = ReceiptArgs(
    event: seq<Field>, eventHash: Option<Text>, operation: Text, tenantId: Text, subjectId: Text, sequence: int,
    previous: Option<Text>, activeSetRoot: Option<Text>, receiptLogRoot: Option<Text>, timestamp: Text,
    signer: Option<SignerArg>, keyId: Option<Text>, optional: map<ReceiptField, Json>, privateKey: Text)

  /** `eventHash`: the hash of the event without its keys and signatures. */
  function HashEvent(c: Crypto, event: seq<Field>): Text
  {
    Prefixed(c.hash(Canonicalize(Obj(WithoutSecrets(event)))))
  }

  function WithoutSecrets(fields: seq<Field>): seq<Field>
  {
    if |fields| == 0 then []
    else (if fields[0].key in [Lit("privateKey"), Lit("signer"), Lit("signature")] then [] else [fields[0]])
         + WithoutSecrets(fields[1..])
  }

  function NormalizePrevious(previous: Option<Text>, sequence: int): (r: Result<Text>)
    ensures r.Ok? ==> r.value == GENESIS || IsRoot(r.value)
  {
    if previous.Some? then (if previous.value == GENESIS then Ok(GENESIS) else NormalizeRoot(previous.value))
    else if sequence == 0 then Ok(GENESIS)
    else Throws
  }

  function GivenKeyId(s: SignerArg): Text
  {
    match s.keyId
    case Some(Str(t)) => t
    case _ => []
  }

  /** `normalizeSigner`: a signer record keeps its own algorithm, whatever it is. */
  function SignerRecord(c: Crypto, a: ReceiptArgs): Json
  {
    var keyId := if a.signer.Some? then GivenKeyId(a.signer.value)
                 else if a.keyId.Some? then a.keyId.value
                 else Lit("ed25519:") + c.hash(c.publicKey(a.privateKey))[..32];
    Obj([Field(KEY_ID, Str(keyId)), Field(ALG, SignerAlg(a))])
  }

  function SignerAlg(a: ReceiptArgs): Json
  {
    if a.signer.Some? && a.signer.value.alg.Some? && !a.signer.value.alg.value.Null? then a.signer.value.alg.value
    else Str(ED25519)
  }

  /** A signer record names no algorithm, or the one that the verifier demands. */
  predicate AlgAccepted(a: ReceiptArgs)
  {
    a.signer.Some? ==> a.signer.value.alg in {None, Some(Null), Some(Str(ED25519))}
  }

  function RootOr(o: Option<Text>, fallback: Text): (r: Result<Text>)
    requires IsRoot(fallback)
    ensures r.Ok? ==> IsRoot(r.value)
  {
    if o.Some? then NormalizeRoot(o.value) else Ok(fallback)
  }

  /** The hashes and roots of a receipt, normalised. */
  datatype Links = Links(eventHash: Text, previous: Text, activeSetRoot: Text, receiptLogRoot: Text)

  predicate LinksOk(l: Links)
  {
    IsRoot(l.eventHash) && IsRoot(l.activeSetRoot) && IsRoot(l.receiptLogRoot)
      && (l.previous == GENESIS || IsRoot(l.previous))
  }

  function NormalizeLinks(c: Crypto, a: ReceiptArgs): (r: Result<Links>)
    ensures r.Ok? ==> LinksOk(r.value)
  {
    PrefixedIsRoot(c.hash(EMPTY_TEXT));
    PrefixedIsRoot(c.hash(Canonicalize(Obj(WithoutSecrets(a.event)))));
    var previous := NormalizePrevious(a.previous, a.sequence);
    var eventHash := RootOr(a.eventHash, HashEvent(c, a.event));
    var activeSetRoot := RootOr(a.activeSetRoot, EmptyRoot(c.hash));
    var receiptLogRoot := RootOr(a.receiptLogRoot, EmptyRoot(c.hash));
    if previous.Throws? || eventHash.Throws? || activeSetRoot.Throws? || receiptLogRoot.Throws? then Throws
    else Ok(Links(eventHash.value, previous.value, activeSetRoot.value, receiptLogRoot.value))
  }

  /** One field of a receipt before its id and signature are added. */
  function BodyField(c: Crypto, a: ReceiptArgs, l: Links, f: ReceiptField): Option<Json>
  {
    match f
    case Schema => Some(Str(RECEIPT_SCHEMA))
    case EventHash => Some(Str(l.eventHash))
    case Operation => Some(Str(a.operation))
    case TenantId => Some(Str(a.tenantId))
    case SubjectId => Some(Str(a.subjectId))
    case Sequence => Some(Num(a.sequence))
    case PreviousReceiptHash => Some(Str(l.previous))
    case ActiveSetRoot => Some(Str(l.activeSetRoot))
    case ReceiptLogRoot => Some(Str(l.receiptLogRoot))
    case Timestamp => Some(Str(a.timestamp))
    case Signer => Some(SignerRecord(c, a))
    case ReceiptId => None
    case Signature => None
    case _ => if f in a.optional then Some(a.optional[f]) else None
  }

  function Body(c: Crypto, a: ReceiptArgs, l: Links): map<ReceiptField, Json>
  {
    map f: ReceiptField | BodyField(c, a, l, f).Some? :: BodyField(c, a, l, f).value
  }

  /** `requiredInteger` and `requiredString`. */
  predicate ArgsOk(a: ReceiptArgs)
  {
    && a.sequence >= 0 && a.operation != [] && a.tenantId != [] && a.subjectId != [] && a.timestamp != []
    && if a.signer.Some? then GivenKeyId(a.signer.value) != [] else a.keyId != Some([])
  }

  function SignatureRecord(c: Crypto, unsigned: map<ReceiptField, Json>, privateKey: Text): Json
  {
    Obj([Field(ALG, Str(ED25519)), Field(VALUE, Str(c.sign(Canonicalize(Ordered(unsigned)), privateKey)))])
  }

  function Sealed(c: Crypto, body: map<ReceiptField, Json>, privateKey: Text): map<ReceiptField, Json>
  {
    var unsigned := body[ReceiptId := Str(IdOf(c, body))];
    unsigned[Signature := SignatureRecord(c, unsigned, privateKey)]
  }

  /** `createReceipt`. */
  function CreateReceipt(c: Crypto, a: ReceiptArgs): Result<Json>
  {
    var l := NormalizeLinks(c, a);
    if l.Throws? || !ArgsOk(a) then Throws else Ok(Ordered(Sealed(c, Body(c, a, l.value), a.privateKey)))
  }

  lemma NameNotPlaintext(f: ReceiptField)
    ensures !IsPlaintextName(Name(f))
  {
    hide Name, Lit;
    NameIsNot(f, "body"); NameIsNot(f, "content"); NameIsNot(f, "plaintext"); NameIsNot(f, "text");
    NameIsNot(f, "memory"); NameIsNot(f, "prompt"); NameIsNot(f, "response"); NameIsNot(f, "raw_memory");
  }

  lemma NameIsNot(f: ReceiptField, s: string)
    requires |s| > 0 && Mark(f) != (|s|, s[0] as int % 0x10000, s[|s| - 1] as int % 0x10000)
    ensures Name(f) != Lit(s)
  {
    NameMark(f);
  }

  lemma OrderedNames(record: map<ReceiptField, Json>)
    ensures var fields := Ordered(record).fields;
      forall i :: 0 <= i < |fields| ==> IsKnownName(fields[i].key) && !IsPlaintextName(fields[i].key)
  {
    var fields := Ordered(record).fields;
    forall i | 0 <= i < |fields| ensures IsKnownName(fields[i].key) && !IsPlaintextName(fields[i].key) {
      WriteNames(FIELD_ORDER, record, i);
      var f :| f in FIELD_ORDER && f in record && fields[i] == Field(Name(f), record[f]);
      NameNotPlaintext(f);
    }
  }

  lemma SealedUnsigned(c: Crypto, body: map<ReceiptField, Json>, privateKey: Text)
    requires ReceiptId !in body && Signature !in body
    ensures KnownFields(Ordered(Sealed(c, body, privateKey))) - {Signature} == body[ReceiptId := Str(IdOf(c, body))]
  {
    KnownFieldsOrdered(Sealed(c, body, privateKey));
  }

  lemma SealedId(c: Crypto, body: map<ReceiptField, Json>, privateKey: Text)
    requires ReceiptId !in body && Signature !in body
    ensures var v := Ordered(Sealed(c, body, privateKey));
      FieldOf(v, ReceiptId) == Some(Str(DeriveReceiptId(c, v)))
  {
    SealedUnsigned(c, body, privateKey);
    IdStable(c, body, Str(IdOf(c, body)));
    OrderedProperty(Sealed(c, body, privateKey), ReceiptId);
  }

  lemma IdStable(c: Crypto, body: map<ReceiptField, Json>, id: Json)
    ensures IdOf(c, body[ReceiptId := id]) == IdOf(c, body)
  {
    assert body[ReceiptId := id][ReceiptId := Str([])] == body[ReceiptId := Str([])];
  }

  /** Sealing gives a record whose signature verifies. */
  lemma SealedVerifies(c: Crypto, body: map<ReceiptField, Json>, privateKey: Text)
    requires SignatureLaw(c) && ReceiptId !in body && Signature !in body
    ensures var v := Ordered(Sealed(c, body, privateKey));
      SignatureOk(v) && SignatureVerifies(c, v, c.publicKey(privateKey)) && ShapeOk(v)
  {
    var unsigned := body[ReceiptId := Str(IdOf(c, body))];
    var record := Sealed(c, body, privateKey);
    hide Name, Ordered, IsKnownName, IsPlaintextName, IsSignatureName, Property;
    SealedUnsigned(c, body, privateKey);
    OrderedProperty(record, Signature);
    OrderedNames(record);
    SignatureRecordOk(c, unsigned, privateKey);
  }

  lemma SignatureRecordOk(c: Crypto, unsigned: map<ReceiptField, Json>, privateKey: Text)
    requires SignatureLaw(c)
    ensures var s := SignatureRecord(c, unsigned, privateKey);
      && Property(s, ALG) == Some(Str(ED25519))
      && Property(s, VALUE) == Some(Str(c.sign(Canonicalize(Ordered(unsigned)), privateKey)))
      && Truthy(Property(s, VALUE))
      && forall i :: 0 <= i < |s.fields| ==> IsSignatureName(s.fields[i].key)
  {
    var text := c.sign(Canonicalize(Ordered(unsigned)), privateKey);
    GetOfTwo(Field(ALG, Str(ED25519)), Field(VALUE, Str(text)));
  }

  lemma SignerRecordOk(c: Crypto, a: ReceiptArgs)
    requires ArgsOk(a)
    ensures var s := SignerRecord(c, a);
      && Property(s, ALG) == Some(SignerAlg(a)) && (SignerAlg(a) == Str(ED25519) <==> AlgAccepted(a))
      && Truthy(Property(s, KEY_ID)) && Property(s, KEY_ID).Some? && Property(s, KEY_ID).value.Str?
  {
    var s := SignerRecord(c, a);
    GetOfTwo(s.fields[0], s.fields[1]);
  }

  /** The key that verification will use is the one matching the private key of the creation. */
  predicate Trusts(c: Crypto, o: VerifyOptions, a: ReceiptArgs)
  {
    var keyId := Property(SignerRecord(c, a), KEY_ID);
    && (o.expectedSigner.Some? ==> keyId == Some(Str(o.expectedSigner.value)))
    && ResolvePublicKey(keyId, o) == Some(c.publicKey(a.privateKey))
  }

  /** What `createReceipt` returns is accepted by `verifyReceipt` under the matching key exactly when the caller's
      signer record, if there is one, has no algorithm of its own or `Ed25519`. */
  lemma CreatedVerifies(c: Crypto, o: VerifyOptions, a: ReceiptArgs)
    requires SignatureLaw(c) && CreateReceipt(c, a).Ok? && Trusts(c, o, a)
    ensures ReceiptOk(c, o, CreateReceipt(c, a).value) <==> AlgAccepted(a)
  {
    hide FieldOf, ShapeOk, SignerOk, SignatureOk, SignatureVerifies, SequenceOk, RootShaped, PreviousOk, Sealed, Body,
      SignatureLaw, DeriveReceiptId, KeyIdOf, SignerRecord, AlgAccepted;
    var l := NormalizeLinks(c, a).value;
    var v := CreateReceipt(c, a).value;
    BodyLacks(c, a, l);
    SealedVerifies(c, Body(c, a, l), a.privateKey);
    SealedId(c, Body(c, a, l), a.privateKey);
    CreatedHasBody(c, a);
    BodyLinks(c, a, l, v);
    BodySigner(c, a, l, v);
  }

  lemma BodyLacks(c: Crypto, a: ReceiptArgs, l: Links)
    ensures ReceiptId !in Body(c, a, l) && Signature !in Body(c, a, l)
  {
  }

  /** A receipt that carries the fields of a body. */
  ghost predicate HasBody(c: Crypto, a: ReceiptArgs, l: Links, v: Json)
  {
    forall f: ReceiptField :: f != ReceiptId && f != Signature ==> FieldOf(v, f) == BodyField(c, a, l, f)
  }

  lemma CreatedHasBody(c: Crypto, a: ReceiptArgs)
    requires CreateReceipt(c, a).Ok?
    ensures HasBody(c, a, NormalizeLinks(c, a).value, CreateReceipt(c, a).value)
  {
    hide Name, Ordered, Sealed, Body, BodyField, NormalizeLinks, FieldOf;
    var l := NormalizeLinks(c, a).value;
    var body := Body(c, a, l);
    forall f: ReceiptField | f != ReceiptId && f != Signature
      ensures FieldOf(Ordered(Sealed(c, body, a.privateKey)), f) == BodyField(c, a, l, f)
    {
      SealedGet(c, body, a.privateKey, f);
      BodyGet(c, a, l, f);
    }
  }

  lemma SealedGet(c: Crypto, body: map<ReceiptField, Json>, privateKey: Text, f: ReceiptField)
    requires f != ReceiptId && f != Signature
    ensures FieldOf(Ordered(Sealed(c, body, privateKey)), f) == if f in body then Some(body[f]) else None
  {
    hide Name, Ordered, SignatureRecord, IdOf;
    OrderedProperty(Sealed(c, body, privateKey), f);
  }

  lemma BodyGet(c: Crypto, a: ReceiptArgs, l: Links, f: ReceiptField)
    ensures (if f in Body(c, a, l) then Some(Body(c, a, l)[f]) else None) == BodyField(c, a, l, f)
  {
    hide BodyField;
  }

  lemma BodySigner(c: Crypto, a: ReceiptArgs, l: Links, v: Json)
    requires ArgsOk(a) && HasBody(c, a, l, v)
    ensures (SignerOk(v) <==> AlgAccepted(a)) && KeyIdOf(v) == Property(SignerRecord(c, a), KEY_ID)
    ensures FieldOf(v, Schema) == Some(Str(RECEIPT_SCHEMA)) && SequenceOk(FieldOf(v, Sequence))
  {
    SignerRecordOk(c, a);
  }

  lemma BodyLinks(c: Crypto, a: ReceiptArgs, l: Links, v: Json)
    requires LinksOk(l) && HasBody(c, a, l, v)
    ensures RootShaped(FieldOf(v, EventHash)) && RootShaped(FieldOf(v, ActiveSetRoot))
    ensures RootShaped(FieldOf(v, ReceiptLogRoot)) && PreviousOk(FieldOf(v, PreviousReceiptHash))
  {
    RootIsShaped(l.eventHash);
    RootIsShaped(l.activeSetRoot);
    RootIsShaped(l.receiptLogRoot);
    if l.previous != GENESIS { RootIsShaped(l.previous); }
  }

  lemma RootIsShaped(t: Text)
    requires IsRoot(t)
    ensures RootShaped(Some(Str(t)))
  {
  }

  /** The arguments of a receipt whose signer record names another algorithm. */
  function OtherAlgArgs(): ReceiptArgs
  {
    ReceiptArgs([], None, Lit("create"), Lit("t"), Lit("s"), 0, None, None, None, Lit("now"),
      Some(SignerArg(Some(Str(Lit("k"))), Some(Str(Lit("x"))))), None, map[], Lit("key"))
  }

  /** Such a receipt is created, and no options make the verifier accept it. */
  lemma OtherAlgRefused(c: Crypto, o: VerifyOptions)
    ensures CreateReceipt(c, OtherAlgArgs()).Ok? && !ReceiptOk(c, o, CreateReceipt(c, OtherAlgArgs()).value)
  {
    hide FieldOf, ShapeOk, SignatureOk, SignatureVerifies, SequenceOk, RootShaped, PreviousOk, Sealed, Body,
      DeriveReceiptId, KeyIdOf, SignerRecord, SignerOk, HasBody, NormalizeLinks;
    var a := OtherAlgArgs();
    assert |Lit("x")| == 1 && |ED25519| == 7;
    OtherAlgLinks(c);
    CreatedHasBody(c, a);
    BodySigner(c, a, NormalizeLinks(c, a).value, CreateReceipt(c, a).value);
  }

  lemma OtherAlgLinks(c: Crypto)
    ensures NormalizeLinks(c, OtherAlgArgs()).Ok?
  {
  }
}
