/** Consent grants of the memory controller: creation and verification. */
module Consent {
  import opened JsText
  import opened Sorting
  import opened Json
  import opened Hashing
  import opened MerkleSets

  // ----- Grants -----

  datatype BoundaryField =
    | PublicPayloadOnly | MemoryPayloadAbsent | PromptPayloadAbsent | TranscriptPayloadAbsent | EmbeddingPayloadAbsent
    | ProviderOutputAbsent | SecretMaterialAbsent | DevicePathAbsent | AccountIdentifierAbsent
    | CustomerIdentifierAbsent | EvidenceRefsOnly | ProviderDeletionClaim | ModelForgettingClaim
    | ProviderNativeMemoryControlClaim | ComplianceCertificationClaim

  const BOUNDARY_FIELDS: seq<BoundaryField> :=
    [ PublicPayloadOnly, MemoryPayloadAbsent, PromptPayloadAbsent, TranscriptPayloadAbsent, EmbeddingPayloadAbsent,
      ProviderOutputAbsent, SecretMaterialAbsent, DevicePathAbsent, AccountIdentifierAbsent,
      CustomerIdentifierAbsent, EvidenceRefsOnly, ProviderDeletionClaim, ModelForgettingClaim,
      ProviderNativeMemoryControlClaim, ComplianceCertificationClaim ]

  function BoundaryValue(b: BoundaryField): Json
  {
    Bool(!(b.ProviderDeletionClaim? || b.ModelForgettingClaim? || b.ProviderNativeMemoryControlClaim?
      || b.ComplianceCertificationClaim?))
  }

  datatype GrantField =
    | Schema | AppRef | PurposeRef | Operations | MemoryZoneRefs | IssuedAt | ExpiresAt | Status | GrantRef | PolicyRef
    | ProofRefs | ReceiptRefs | Boundary(b: BoundaryField)

  /** A value offered as a grant: a plain record with known fields and perhaps others, or something else. */
  datatype Grant = NotRecord | Record(known: map<GrantField, Json>, others: seq<Text>)

  function FieldOf(g: Grant, f: GrantField): Option<Json>
  {
    if g.Record? && f in g.known then Some(g.known[f]) else None
  }

  /** What is decided by pattern text: the public-safety scan, and ISO date-times in milliseconds. */
  datatype World = World(publicSafe: Grant -> bool, parse: Text -> Option<int>, format: int -> Text)

  /** The first instants of the years 0 and 10000: `toISOString` writes four-digit years between them only. */
  const FIRST_TIME: int := -62167219200000
  const TIME_LIMIT: int := 253402300800000

  ghost predicate TimeLaw(w: World)
  {
    forall t :: w.parse(w.format(t)) == if FIRST_TIME <= t < TIME_LIMIT then Some(t) else None
  }

  const GRANT_SCHEMA: Text := Lit("enigma.memory_controller_grant.v1")
  const ACTIVE: Text := Lit("active")
  const EXPIRED: Text := Lit("expired")
  const REVOKED: Text := Lit("revoked")

  const GRANT_OPERATIONS: set<Text> :=
    { Lit("read_local"), Lit("write_local"), Lit("recall_context"), Lit("withhold_context"), Lit("share_context"),
      Lit("open_private_bubble"), Lit("close_private_bubble"), Lit("delete_local"), Lit("connector_access") }

  predicate IsAlphanumeric(u: Unit) { 48 <= u <= 57 || 65 <= u <= 90 || 97 <= u <= 122 }

  /** `PUBLIC_REF_RE`: `ref:`, a letter or digit, and at most 255 units of a fixed alphabet. */
  predicate IsPublicRef(t: Text)
  {
    && 5 <= |t| <= 260 && t[..4] == Lit("ref:") && IsAlphanumeric(t[4])
    && forall i :: 5 <= i < |t| ==> IsAlphanumeric(t[i]) || t[i] in Lit("._~:@#?=&%+-")
  }

  /** A letter or a digit. */
  predicate IsLetterOrDigit(u: Unit)
  {
    '0' as int <= u <= '9' as int || 'A' as int <= u <= 'Z' as int || 'a' as int <= u <= 'z' as int
  }

  /** A public reference is `ref:`, a letter or digit, and at most 255 units of a fixed alphabet. */
  lemma PublicRefExactly(t: Text)
    ensures IsPublicRef(t) <==>
      exists first: Unit, rest: Text ::
        && t == Lit("ref:") + [first] + rest && IsLetterOrDigit(first) && |rest| <= 255
        && forall i :: 0 <= i < |rest| ==> IsLetterOrDigit(rest[i]) || rest[i] in Lit("._~:@#?=&%+-")
  {
    if IsPublicRef(t) {
      assert t == Lit("ref:") + [t[4]] + t[5..];
      assert IsLetterOrDigit(t[4]);
    }
  }

  /** A value that is an array of different texts that pass a test. */
  predicate IsTextSet(v: Option<Json>, test: Text -> bool)
  {
    && v.Some? && v.value.Arr?
    && var items := v.value.items;
       && (forall i :: 0 <= i < |items| ==> items[i].Str? && test(items[i].s))
       && (forall i, j :: 0 <= i < j < |items| ==> items[i] != items[j])
  }

  predicate IsNonEmptyTextSet(v: Option<Json>, test: Text -> bool) { IsTextSet(v, test) && |v.value.items| > 0 }

  predicate IsTextWith(v: Option<Json>, test: Text -> bool) { v.Some? && v.value.Str? && test(v.value.s) }

  predicate Includes(v: Option<Json>, t: Text) { v.Some? && v.value.Arr? && Str(t) in v.value.items }

  // ----- Verification -----

  datatype Scope = Scope(appRef: Option<Text>, purposeRef: Option<Text>, operations: seq<Text>, zones: seq<Text>,
    now: Text, revoked: bool, revokedRefs: seq<Text>)

  predicate IsOperation(t: Text) { t in GRANT_OPERATIONS }

  predicate IsStatus(t: Text) { t in {ACTIVE, EXPIRED, REVOKED} }

  predicate IsDateTime(w: World, v: Option<Json>) { v.Some? && v.value.Str? && w.parse(v.value.s).Some? }

  predicate ScopeShapeOk(g: Grant)
  {
    && FieldOf(g, Schema) == Some(Str(GRANT_SCHEMA))
    && IsTextWith(FieldOf(g, AppRef), IsPublicRef) && IsTextWith(FieldOf(g, PurposeRef), IsPublicRef)
    && IsNonEmptyTextSet(FieldOf(g, Operations), IsOperation)
    && IsNonEmptyTextSet(FieldOf(g, MemoryZoneRefs), IsPublicRef)
  }

  predicate RecordShapeOk(w: World, g: Grant)
  {
    && IsDateTime(w, FieldOf(g, IssuedAt)) && IsDateTime(w, FieldOf(g, ExpiresAt))
    && IsTextWith(FieldOf(g, Status), IsStatus)
    && IsTextWith(FieldOf(g, GrantRef), IsPublicRef) && IsTextWith(FieldOf(g, PolicyRef), IsPublicRef)
    && IsNonEmptyTextSet(FieldOf(g, ProofRefs), IsPublicRef) && IsNonEmptyTextSet(FieldOf(g, ReceiptRefs), IsPublicRef)
    && BoundaryOk(g)
  }

  predicate ShapeOk(w: World, g: Grant)
  {
    g.Record? && w.publicSafe(g) && |g.others| == 0 && ScopeShapeOk(g) && RecordShapeOk(w, g)
  }

  predicate BoundaryOk(g: Grant)
  {
    forall i :: 0 <= i < |BOUNDARY_FIELDS| ==>
      FieldOf(g, Boundary(BOUNDARY_FIELDS[i])) == Some(BoundaryValue(BOUNDARY_FIELDS[i]))
  }

  predicate IsExpired(w: World, g: Grant, now: int)
  {
    || FieldOf(g, Status) == Some(Str(EXPIRED))
    || (match FieldOf(g, ExpiresAt)
        case Some(Str(t)) => w.parse(t).Some? && w.parse(t).value <= now
        case _ => false)
  }

  predicate IsRevoked(g: Grant, s: Scope)
  {
    || FieldOf(g, Status) == Some(Str(REVOKED)) || s.revoked
    || (match FieldOf(g, GrantRef)
        case Some(Str(t)) => t in s.revokedRefs
        case _ => false)
  }

  predicate OperationsOk(g: Grant, s: Scope)
  {
    forall i :: 0 <= i < |s.operations| ==> Includes(FieldOf(g, Operations), s.operations[i])
  }

  predicate ZonesOk(g: Grant, s: Scope)
  {
    forall i :: 0 <= i < |s.zones| ==> Includes(FieldOf(g, MemoryZoneRefs), s.zones[i])
  }

  predicate ScopeOk(g: Grant, s: Scope)
  {
    && (s.appRef.Some? ==> FieldOf(g, AppRef) == Some(Str(s.appRef.value)))
    && (s.purposeRef.Some? ==> FieldOf(g, PurposeRef) == Some(Str(s.purposeRef.value)))
    && OperationsOk(g, s) && ZonesOk(g, s)
  }

  /** A grant holds for a scope at a time. */
  predicate GrantOk(w: World, g: Grant, s: Scope, now: int)
  {
    ShapeOk(w, g) && !IsExpired(w, g, now) && !IsRevoked(g, s) && ScopeOk(g, s)
  }

  datatype Code =
    | GrantNotObject | NotPublicSafe | UnknownField(key: Text) | BadField(f: GrantField) | Expired | Revoked
    | WrongApp | WrongPurpose | WrongOperation | WrongMemoryZone

  /** No error says that the grant is expired or revoked. */
  predicate OnlyShape(errors: seq<Code>) { Expired !in errors && Revoked !in errors }

  method Flag(errors: seq<Code>, ok: bool, f: GrantField) returns (r: seq<Code>)
    requires OnlyShape(errors)
    ensures OnlyShape(r) && (r == [] <==> errors == [] && ok)
  {
    r := if ok then errors else errors + [BadField(f)];
  }

  method CheckKeys(w: World, g: Grant) returns (errors: seq<Code>)
    requires g.Record?
    ensures OnlyShape(errors) && (errors == [] <==> w.publicSafe(g) && |g.others| == 0)
  {
    errors := PushUnless([], w.publicSafe(g), NotPublicSafe);
    for i := 0 to |g.others|
      invariant OnlyShape(errors) && (errors == [] <==> w.publicSafe(g) && i == 0)
    {
      errors := errors + [UnknownField(g.others[i])];
    }
  }

  /** The checks of a grant that do not depend on the request. */
  method CheckShape(w: World, g: Grant) returns (errors: seq<Code>)
    requires g.Record?
    ensures OnlyShape(errors) && (errors == [] <==> ShapeOk(w, g))
  {
    hide OnlyShape, IsNonEmptyTextSet, IsTextWith, IsDateTime, BoundaryOk, FieldOf;
    errors := CheckKeys(w, g);
    errors := Flag(errors, FieldOf(g, Schema) == Some(Str(GRANT_SCHEMA)), Schema);
    errors := Flag(errors, IsTextWith(FieldOf(g, AppRef), IsPublicRef), AppRef);
    errors := Flag(errors, IsTextWith(FieldOf(g, PurposeRef), IsPublicRef), PurposeRef);
    errors := Flag(errors, IsNonEmptyTextSet(FieldOf(g, Operations), IsOperation), Operations);
    errors := Flag(errors, IsNonEmptyTextSet(FieldOf(g, MemoryZoneRefs), IsPublicRef), MemoryZoneRefs);
    errors := Flag(errors, IsDateTime(w, FieldOf(g, IssuedAt)), IssuedAt);
    errors := Flag(errors, IsDateTime(w, FieldOf(g, ExpiresAt)), ExpiresAt);
    errors := Flag(errors, IsTextWith(FieldOf(g, Status), IsStatus), Status);
    errors := Flag(errors, IsTextWith(FieldOf(g, GrantRef), IsPublicRef), GrantRef);
    errors := Flag(errors, IsTextWith(FieldOf(g, PolicyRef), IsPublicRef), PolicyRef);
    errors := Flag(errors, IsNonEmptyTextSet(FieldOf(g, ProofRefs), IsPublicRef), ProofRefs);
    errors := Flag(errors, IsNonEmptyTextSet(FieldOf(g, ReceiptRefs), IsPublicRef), ReceiptRefs);
    errors := CheckBoundary(g, errors);
  }

  method CheckBoundary(g: Grant, before: seq<Code>) returns (errors: seq<Code>)
    requires OnlyShape(before)
    ensures OnlyShape(errors) && (errors == [] <==> before == [] && BoundaryOk(g))
  {
    hide OnlyShape;
    errors := before;
    for i := 0 to |BOUNDARY_FIELDS|
      invariant OnlyShape(errors)
      invariant errors == [] <==> (before == [] &&
        forall k :: 0 <= k < i ==> FieldOf(g, Boundary(BOUNDARY_FIELDS[k])) == Some(BoundaryValue(BOUNDARY_FIELDS[k])))
    {
      var b := BOUNDARY_FIELDS[i];
      errors := Flag(errors, FieldOf(g, Boundary(b)) == Some(BoundaryValue(b)), Boundary(b));
    }
  }

  /** `compareScope`. */
  method CompareScope(g: Grant, s: Scope) returns (errors: seq<Code>)
    ensures OnlyShape(errors) && (errors == [] <==> ScopeOk(g, s))
    ensures WrongOperation in errors <==> !OperationsOk(g, s)
    ensures WrongMemoryZone in errors <==> !ZonesOk(g, s)
  {
    hide OperationsOk, ZonesOk, FieldOf;
    var app := s.appRef.Some? ==> FieldOf(g, AppRef) == Some(Str(s.appRef.value));
    var purpose := s.purposeRef.Some? ==> FieldOf(g, PurposeRef) == Some(Str(s.purposeRef.value));
    var operations, zones := OperationsOk(g, s), ZonesOk(g, s);
    errors := ScopeErrors(app, purpose, operations, zones);
  }

  method ScopeErrors(app: bool, purpose: bool, operations: bool, zones: bool) returns (errors: seq<Code>)
    ensures OnlyShape(errors) && (errors == [] <==> app && purpose && operations && zones)
    ensures (WrongOperation in errors <==> !operations) && (WrongMemoryZone in errors <==> !zones)
  {
    errors := PushUnless([], app, WrongApp);
    errors := PushUnless(errors, purpose, WrongPurpose);
    errors := PushUnless(errors, operations, WrongOperation);
    errors := PushUnless(errors, zones, WrongMemoryZone);
  }

  /** `verifyConsentGrant`; a time that cannot be read throws, but only once the grant is known to be a record. */
  method VerifyConsentGrant(w: World, g: Grant, s: Scope) returns (r: Result<seq<Code>>)
    ensures r.Throws? <==> g.Record? && w.parse(s.now).None?
    ensures r.Ok? ==>
      && (r.value == [] <==> w.parse(s.now).Some? && GrantOk(w, g, s, w.parse(s.now).value))
      && (Revoked in r.value <==> g.Record? && IsRevoked(g, s))
      && (Expired in r.value <==> g.Record? && IsExpired(w, g, w.parse(s.now).value))
  {
    hide ShapeOk, IsExpired, IsRevoked, ScopeOk;
    if g.NotRecord? {
      NotRecordFails(w);
      return Ok([GrantNotObject]);
    }
    var errors := CheckShape(w, g);
    var now := w.parse(s.now);
    if now.None? { return Throws; }
    errors := PushUnless(errors, !IsExpired(w, g, now.value), Expired);
    errors := PushUnless(errors, !IsRevoked(g, s), Revoked);
    var scope := CompareScope(g, s);
    r := Ok(errors + scope);
  }

  lemma NotRecordFails(w: World)
    ensures !ShapeOk(w, NotRecord)
  {
  }

  /** When a grant is expired or revoked. */
  lemma LapsedExactly(w: World, g: Grant, s: Scope, now: int)
    ensures IsExpired(w, g, now) <==>
      || FieldOf(g, Status) == Some(Str(Lit("expired")))
      || exists t :: FieldOf(g, ExpiresAt) == Some(Str(t)) && w.parse(t).Some? && w.parse(t).value <= now
    ensures IsRevoked(g, s) <==>
      || FieldOf(g, Status) == Some(Str(Lit("revoked"))) || s.revoked
      || exists t :: FieldOf(g, GrantRef) == Some(Str(t)) && t in s.revokedRefs
  {
  }

  /** A grant that holds is active, ends later, and gives the app and the purpose all that is asked. */
  lemma HeldSays(w: World, g: Grant, s: Scope, now: int)
    requires GrantOk(w, g, s, now)
    ensures g.Record? && g.others == [] && w.publicSafe(g)
    ensures FieldOf(g, Schema) == Some(Str(Lit("enigma.memory_controller_grant.v1")))
    ensures FieldOf(g, Status) == Some(Str(Lit("active")))
    ensures exists t :: FieldOf(g, ExpiresAt) == Some(Str(t)) && w.parse(t).Some? && now < w.parse(t).value
    ensures exists t :: FieldOf(g, IssuedAt) == Some(Str(t)) && w.parse(t).Some?
    ensures exists t :: FieldOf(g, GrantRef) == Some(Str(t)) && IsPublicRef(t) && t !in s.revokedRefs
    ensures !s.revoked
    ensures s.appRef.Some? ==> FieldOf(g, AppRef) == Some(Str(s.appRef.value))
    ensures s.purposeRef.Some? ==> FieldOf(g, PurposeRef) == Some(Str(s.purposeRef.value))
    ensures forall t :: t in s.operations ==> Includes(FieldOf(g, Operations), t)
    ensures forall t :: t in s.zones ==> Includes(FieldOf(g, MemoryZoneRefs), t)
  {
    hide IsPublicRef, IsTextSet, Includes, BoundaryOk;
    var expiry, issue, ref := FieldOf(g, ExpiresAt).value, FieldOf(g, IssuedAt).value, FieldOf(g, GrantRef).value;
    assert FieldOf(g, ExpiresAt) == Some(Str(expiry.s)) && FieldOf(g, IssuedAt) == Some(Str(issue.s))
      && FieldOf(g, GrantRef) == Some(Str(ref.s));
  }

  /** A text of a grant is a public reference. */
  ghost predicate HoldsRef(g: Grant, f: GrantField)
  {
    exists t :: FieldOf(g, f) == Some(Str(t)) && IsPublicRef(t)
  }

  /** A list of a grant holds at least one text, no text twice, and only texts that pass a test. */
  ghost predicate HoldsTexts(g: Grant, f: GrantField, test: Text -> bool)
  {
    exists items: seq<Json> ::
      && FieldOf(g, f) == Some(Arr(items)) && |items| > 0
      && (forall i :: 0 <= i < |items| ==> items[i].Str? && test(items[i].s))
      && (forall i, j :: 0 <= i < j < |items| ==> items[i] != items[j])
  }

  /** The form of a grant that holds. */
  lemma HeldForm(w: World, g: Grant, s: Scope, now: int)
    requires GrantOk(w, g, s, now)
    ensures HoldsRef(g, AppRef) && HoldsRef(g, PurposeRef) && HoldsRef(g, PolicyRef) && HoldsRef(g, GrantRef)
    ensures HoldsTexts(g, Operations, IsOperation) && HoldsTexts(g, MemoryZoneRefs, IsPublicRef)
    ensures HoldsTexts(g, ProofRefs, IsPublicRef) && HoldsTexts(g, ReceiptRefs, IsPublicRef)
    ensures forall b: BoundaryField :: b in BOUNDARY_FIELDS ==>
      FieldOf(g, Boundary(b))
      == Some(Bool(b !in {ProviderDeletionClaim, ModelForgettingClaim, ProviderNativeMemoryControlClaim,
                          ComplianceCertificationClaim}))
  {
    hide IsPublicRef, IsOperation, FieldOf, BoundaryOk, HoldsRef, HoldsTexts, IsTextSet, IsTextWith;
    RefHeld(g, AppRef); RefHeld(g, PurposeRef); RefHeld(g, PolicyRef); RefHeld(g, GrantRef);
    TextsHeld(g, Operations, IsOperation); TextsHeld(g, MemoryZoneRefs, IsPublicRef);
    TextsHeld(g, ProofRefs, IsPublicRef); TextsHeld(g, ReceiptRefs, IsPublicRef);
    HeldBoundary(g);
  }

  lemma RefHeld(g: Grant, f: GrantField)
    requires IsTextWith(FieldOf(g, f), IsPublicRef)
    ensures HoldsRef(g, f)
  {
    hide IsPublicRef, FieldOf;
    assert FieldOf(g, f) == Some(Str(FieldOf(g, f).value.s));
  }

  lemma TextsHeld(g: Grant, f: GrantField, test: Text -> bool)
    requires IsNonEmptyTextSet(FieldOf(g, f), test)
    ensures HoldsTexts(g, f, test)
  {
    hide FieldOf;
    assert FieldOf(g, f) == Some(Arr(FieldOf(g, f).value.items));
  }

  lemma HeldBoundary(g: Grant)
    requires BoundaryOk(g)
    ensures forall b: BoundaryField :: b in BOUNDARY_FIELDS ==>
      FieldOf(g, Boundary(b))
      == Some(Bool(b !in {ProviderDeletionClaim, ModelForgettingClaim, ProviderNativeMemoryControlClaim,
                          ComplianceCertificationClaim}))
  {
    hide FieldOf;
    forall b: BoundaryField | b in BOUNDARY_FIELDS
      ensures FieldOf(g, Boundary(b))
           == Some(Bool(b !in {ProviderDeletionClaim, ModelForgettingClaim, ProviderNativeMemoryControlClaim,
                               ComplianceCertificationClaim}))
    {
      var i :| 0 <= i < |BOUNDARY_FIELDS| && BOUNDARY_FIELDS[i] == b;
    }
  }

  // ----- Creating grants -----

  /** `[...new Set(values)].sort()`. */
  function UniqueSorted(values: seq<Text>): seq<Text> { Sort(Self, AddAll(values)) }

  function Texts(values: seq<Text>): (r: Json)
  {
    Arr(seq(|values|, i requires 0 <= i < |values| => Str(values[i])))
  }

  lemma UniqueSortedMembers(values: seq<Text>)
    ensures StrictlySorted(Self, UniqueSorted(values))
    ensures forall t :: t in UniqueSorted(values) <==> t in values
    ensures |UniqueSorted(values)| > 0 <==> |values| > 0
  {
    AddAllMembers(values);
    SortSorted(Self, AddAll(values));
    forall t ensures t in UniqueSorted(values) <==> t in values {
      MultisetMember(UniqueSorted(values), AddAll(values), t);
    }
    if |values| > 0 { assert values[0] in UniqueSorted(values); }
    if |UniqueSorted(values)| > 0 { assert UniqueSorted(values)[0] in values; }
  }

  /** An array written by the normalisers is a set of texts with the same members. */
  lemma NormalizedSet(values: seq<Text>, test: Text -> bool)
    ensures var v := Some(Texts(UniqueSorted(values)));
      && (IsTextSet(v, test) <==> forall t :: t in values ==> test(t))
      && (|v.value.items| > 0 <==> |values| > 0)
      && (forall t :: Includes(v, t) <==> t in values)
  {
    hide UniqueSorted;
    UniqueSortedMembers(values);
    var sorted := UniqueSorted(values);
    var items := Texts(sorted).items;
    forall i, j | 0 <= i < j < |items| ensures items[i] != items[j] {
      assert Less(Self(sorted[i]), Self(sorted[j]));
      LessAsymmetric(sorted[i], sorted[j]);
    }
    forall t ensures Str(t) in items <==> t in sorted {
      if t in sorted {
        var i :| 0 <= i < |sorted| && sorted[i] == t;
        assert items[i] == Str(t);
      }
    }
    if forall t :: t in values ==> test(t) {
      forall i | 0 <= i < |items| ensures items[i].Str? && test(items[i].s) { assert sorted[i] in sorted; }
    }
    if IsTextSet(Some(Texts(sorted)), test) {
      forall t | t in values ensures test(t) {
        var i :| 0 <= i < |sorted| && sorted[i] == t;
        assert items[i] == Str(t);
      }
    }
  }

  datatype GrantOptions = GrantOptions(
    issuedAt: Text, expiresAt: Option<Text>, ttl: int, appRef: Text, purposeRef: Text, operations: seq<Text>,
    zones: seq<Text>, status: Text, grantRef: Option<Text>, policyRef: Text, proofRefs: Option<seq<Text>>,
    receiptRefs: Option<seq<Text>>)

  /** The digest of the canonical text of a record, without the fields that follow from it. */
  type RecordHash = map<GrantField, Json> -> Digest

  /** `makePublicRef`. */
  function MakeRef(kind: Text, d: Digest): Text { Lit("ref:") + kind + Lit(":") + d[..32] }

  const KIND_GRANT: Text := Lit("grant")
  const KIND_PROOF: Text := Lit("proof")
  const KIND_RECEIPT: Text := Lit("receipt")

  predicate IsKind(kind: Text) { 0 < |kind| <= 20 && forall i :: 0 <= i < |kind| ==> IsAlphanumeric(kind[i]) }

  lemma MadeRefIsPublic(kind: Text, d: Digest)
    requires IsKind(kind)
    ensures IsPublicRef(MakeRef(kind, d))
  {
    var t := MakeRef(kind, d);
    var k := 4 + |kind|;
    assert t[..4] == Lit("ref:") && t[4] == kind[0];
    forall i | 5 <= i < |t| ensures IsAlphanumeric(t[i]) || t[i] in Lit("._~:@#?=&%+-") {
      if i < k {
        assert t[i] == kind[i - 4];
      } else if i == k {
        assert t[i] == Lit(":")[0] == Lit("._~:@#?=&%+-")[3];
      } else {
        assert t[i] == d[i - k - 1];
      }
    }
  }

  lemma KindsAreKinds()
    ensures IsKind(KIND_GRANT) && IsKind(KIND_PROOF) && IsKind(KIND_RECEIPT)
  {
    WordIsKind("grant");
    WordIsKind("proof");
    WordIsKind("receipt");
  }

  lemma WordIsKind(s: string)
    requires 0 < |s| <= 20 && forall i :: 0 <= i < |s| ==> 'a' <= s[i] <= 'z'
    ensures IsKind(Lit(s))
  {
  }

  function NormalizeTime(w: World, t: Text): Result<int>
  {
    if w.parse(t).Some? then Ok(w.parse(t).value) else Throws
  }

  function Expiry(w: World, o: GrantOptions, issued: int): Result<int>
  {
    if o.expiresAt.Some? then NormalizeTime(w, o.expiresAt.value)
    else if o.ttl <= 0 then Throws
    else NormalizeTime(w, w.format(issued + o.ttl * 1000))
  }

  predicate AllPublic(refs: seq<Text>) { forall i :: 0 <= i < |refs| ==> IsPublicRef(refs[i]) }

  predicate OptionsOk(o: GrantOptions)
  {
    && IsPublicRef(o.appRef) && IsPublicRef(o.purposeRef) && IsPublicRef(o.policyRef)
    && |o.operations| > 0 && (forall i :: 0 <= i < |o.operations| ==> IsOperation(o.operations[i]))
    && AllPublic(o.zones) && IsStatus(o.status) && (o.grantRef.Some? ==> IsPublicRef(o.grantRef.value))
    && (o.proofRefs.Some? ==> |o.proofRefs.value| > 0 && AllPublic(o.proofRefs.value))
    && (o.receiptRefs.Some? ==> |o.receiptRefs.value| > 0 && AllPublic(o.receiptRefs.value))
  }

  const OWN_FIELDS: set<GrantField> :=
    { Schema, AppRef, PurposeRef, Operations, MemoryZoneRefs, IssuedAt, ExpiresAt, Status, PolicyRef }

  function OwnValue(w: World, o: GrantOptions, issued: int, expires: int, f: GrantField): Json
  {
    match f
    case Schema => Str(GRANT_SCHEMA)
    case AppRef => Str(o.appRef)
    case PurposeRef => Str(o.purposeRef)
    case Operations => Texts(UniqueSorted(o.operations))
    case MemoryZoneRefs => Texts(UniqueSorted(o.zones))
    case IssuedAt => Str(w.format(issued))
    case ExpiresAt => Str(w.format(expires))
    case Status => Str(o.status)
    case PolicyRef => Str(o.policyRef)
    case _ => Null
  }

  function OwnBody(w: World, o: GrantOptions, issued: int, expires: int): (r: map<GrantField, Json>)
    ensures r.Keys == OWN_FIELDS
  {
    map f | f in OWN_FIELDS :: OwnValue(w, o, issued, expires, f)
  }

  function Body(w: World, o: GrantOptions, issued: int, expires: int): map<GrantField, Json>
  {
    OwnBody(w, o, issued, expires) + BoundaryBody()
  }

  function BoundaryBody(): (r: map<GrantField, Json>)
    ensures forall f :: f in r ==> f.Boundary?
  {
    map b: BoundaryField | b in BOUNDARY_FIELDS :: Boundary(b) := BoundaryValue(b)
  }

  function RefOf(h: RecordHash, o: GrantOptions, body: map<GrantField, Json>): Text
  {
    if o.grantRef.Some? then o.grantRef.value else MakeRef(KIND_GRANT, h(body))
  }

  function RefsOr(refs: Option<seq<Text>>, made: Text): Json
  {
    Texts(UniqueSorted(if refs.Some? then refs.value else [made]))
  }

  function Sealed(h: RecordHash, o: GrantOptions, body: map<GrantField, Json>): Grant
  {
    var named := body[GrantRef := Str(RefOf(h, o, body))];
    var proven := named[ProofRefs := RefsOr(o.proofRefs, MakeRef(KIND_PROOF, h(named)))];
    Record(proven[ReceiptRefs := RefsOr(o.receiptRefs, MakeRef(KIND_RECEIPT, h(proven)))], [])
  }

  /** `createConsentGrant`. */
  function CreateConsentGrant(w: World, h: RecordHash, o: GrantOptions): Result<Grant>
  {
    var issued := NormalizeTime(w, o.issuedAt);
    if issued.Throws? || !OptionsOk(o) then Throws
    else
      var expires := Expiry(w, o, issued.value);
      if expires.Throws? then Throws
      else
        var g := Sealed(h, o, Body(w, o, issued.value, expires.value));
        if w.publicSafe(g) then Ok(g) else Throws
  }

  predicate InRange(t: int) { FIRST_TIME <= t < TIME_LIMIT }

  lemma SealedFields(w: World, h: RecordHash, o: GrantOptions, issued: int, expires: int)
    ensures var g := Sealed(h, o, Body(w, o, issued, expires));
      && FieldOf(g, Schema) == Some(Str(GRANT_SCHEMA)) && FieldOf(g, AppRef) == Some(Str(o.appRef))
      && FieldOf(g, PurposeRef) == Some(Str(o.purposeRef)) && FieldOf(g, PolicyRef) == Some(Str(o.policyRef))
      && FieldOf(g, Operations) == Some(Texts(UniqueSorted(o.operations)))
      && FieldOf(g, MemoryZoneRefs) == Some(Texts(UniqueSorted(o.zones)))
      && FieldOf(g, IssuedAt) == Some(Str(w.format(issued))) && FieldOf(g, ExpiresAt) == Some(Str(w.format(expires)))
      && FieldOf(g, Status) == Some(Str(o.status)) && BoundaryOk(g)
      && FieldOf(g, GrantRef) == Some(Str(RefOf(h, o, Body(w, o, issued, expires))))
  {
    hide UniqueSorted, Sealed, RefOf, Body, BoundaryValue;
    var body := Body(w, o, issued, expires);
    BodyFields(w, o, issued, expires);
    BodyBoundary(w, o, issued, expires);
    forall f: GrantField | !f.GrantRef? && !f.ProofRefs? && !f.ReceiptRefs? && f in body
      ensures FieldOf(Sealed(h, o, body), f) == Some(body[f])
    {
      SealedKeeps(h, o, body, f);
    }
    SealedKeeps(h, o, body, GrantRef);
  }

  lemma BodyFields(w: World, o: GrantOptions, issued: int, expires: int)
    ensures var body := Body(w, o, issued, expires);
      forall f :: f in OWN_FIELDS ==> f in body && body[f] == OwnValue(w, o, issued, expires, f)
  {
    hide OwnValue, BoundaryBody;
    forall f | f in OWN_FIELDS
      ensures var body := Body(w, o, issued, expires); f in body && body[f] == OwnValue(w, o, issued, expires, f)
    {
      OwnIsNotBoundary(f);
    }
  }

  lemma OwnIsNotBoundary(f: GrantField)
    requires f in OWN_FIELDS
    ensures !f.Boundary?
  {
  }

  lemma SealedKeeps(h: RecordHash, o: GrantOptions, body: map<GrantField, Json>, f: GrantField)
    ensures !f.GrantRef? && !f.ProofRefs? && !f.ReceiptRefs? && f in body ==>
      FieldOf(Sealed(h, o, body), f) == Some(body[f])
    ensures FieldOf(Sealed(h, o, body), GrantRef) == Some(Str(RefOf(h, o, body)))
  {
    hide RefOf, RefsOr, MakeRef;
  }

  lemma BodyBoundary(w: World, o: GrantOptions, issued: int, expires: int)
    ensures var body := Body(w, o, issued, expires);
      forall i :: 0 <= i < |BOUNDARY_FIELDS| ==>
        Boundary(BOUNDARY_FIELDS[i]) in body && body[Boundary(BOUNDARY_FIELDS[i])] == BoundaryValue(BOUNDARY_FIELDS[i])
  {
    hide OwnValue, BoundaryValue;
    var body := Body(w, o, issued, expires);
    forall i | 0 <= i < |BOUNDARY_FIELDS|
      ensures Boundary(BOUNDARY_FIELDS[i]) in body
        && body[Boundary(BOUNDARY_FIELDS[i])] == BoundaryValue(BOUNDARY_FIELDS[i])
    {
      assert BOUNDARY_FIELDS[i] in BOUNDARY_FIELDS;
      assert Boundary(BOUNDARY_FIELDS[i]) in BoundaryBody();
    }
  }

  lemma SealedRefs(h: RecordHash, o: GrantOptions, body: map<GrantField, Json>)
    requires OptionsOk(o)
    ensures var g := Sealed(h, o, body);
      IsPublicRef(RefOf(h, o, body)) && IsNonEmptyTextSet(FieldOf(g, ProofRefs), IsPublicRef)
      && IsNonEmptyTextSet(FieldOf(g, ReceiptRefs), IsPublicRef)
  {
    hide UniqueSorted, IsPublicRef, MakeRef, IsTextSet;
    KindsAreKinds();
    MadeRefIsPublic(KIND_GRANT, h(body));
    var named := body[GrantRef := Str(RefOf(h, o, body))];
    var proven := named[ProofRefs := RefsOr(o.proofRefs, MakeRef(KIND_PROOF, h(named)))];
    MadeRefIsPublic(KIND_PROOF, h(named));
    MadeRefIsPublic(KIND_RECEIPT, h(proven));
    RefsPublic(o.proofRefs, MakeRef(KIND_PROOF, h(named)));
    RefsPublic(o.receiptRefs, MakeRef(KIND_RECEIPT, h(proven)));
  }

  lemma RefsPublic(refs: Option<seq<Text>>, made: Text)
    requires IsPublicRef(made) && (refs.Some? ==> |refs.value| > 0 && AllPublic(refs.value))
    ensures IsNonEmptyTextSet(Some(RefsOr(refs, made)), IsPublicRef)
  {
    hide UniqueSorted, IsPublicRef;
    var values := if refs.Some? then refs.value else [made];
    NormalizedSet(values, IsPublicRef);
    assert forall t :: t in values ==> IsPublicRef(t);
  }

  /** When a scope asks for no more than the options gave. */
  predicate Asks(o: GrantOptions, s: Scope)
  {
    && (s.appRef.Some? ==> o.appRef == s.appRef.value) && (s.purposeRef.Some? ==> o.purposeRef == s.purposeRef.value)
    && (forall i :: 0 <= i < |s.operations| ==> s.operations[i] in o.operations)
    && (forall i :: 0 <= i < |s.zones| ==> s.zones[i] in o.zones)
  }

  lemma SealedShape(w: World, h: RecordHash, o: GrantOptions, issued: int, expires: int)
    requires TimeLaw(w) && OptionsOk(o)
    ensures var g := Sealed(h, o, Body(w, o, issued, expires));
      ShapeOk(w, g) <==> w.publicSafe(g) && |o.zones| > 0 && InRange(issued) && InRange(expires)
  {
    hide UniqueSorted, Sealed, IsPublicRef, IsOperation, IsStatus, Body, RefOf, BoundaryOk, IsTextSet;
    var body := Body(w, o, issued, expires);
    var g := Sealed(h, o, body);
    SealedRecord(h, o, body);
    SealedFields(w, h, o, issued, expires);
    SealedRefs(h, o, body);
    NormalizedSet(o.operations, IsOperation);
    NormalizedSet(o.zones, IsPublicRef);
    assert w.parse(w.format(issued)).Some? <==> InRange(issued);
    assert w.parse(w.format(expires)).Some? <==> InRange(expires);
  }

  lemma SealedRecord(h: RecordHash, o: GrantOptions, body: map<GrantField, Json>)
    ensures Sealed(h, o, body).Record? && |Sealed(h, o, body).others| == 0
  {
  }

  /** The given expiry, or the given seconds after the time of issue. */
  function ExpiryOf(w: World, o: GrantOptions): int
    requires w.parse(o.issuedAt).Some? && (o.expiresAt.Some? ==> w.parse(o.expiresAt.value).Some?)
  {
    if o.expiresAt.Some? then w.parse(o.expiresAt.value).value else w.parse(o.issuedAt).value + 1000 * o.ttl
  }

  lemma ExpiryMeaning(w: World, o: GrantOptions)
    requires TimeLaw(w) && w.parse(o.issuedAt).Some?
    ensures var expiry := Expiry(w, o, w.parse(o.issuedAt).value);
      && (o.expiresAt.Some? ==> (expiry.Ok? <==> w.parse(o.expiresAt.value).Some?))
      && (o.expiresAt.None? ==> (expiry.Ok? <==> o.ttl > 0 && InRange(ExpiryOf(w, o))))
      && (expiry.Ok? ==> expiry.value == ExpiryOf(w, o))
  {
    var t := w.parse(o.issuedAt).value + o.ttl * 1000;
    assert w.parse(w.format(t)) == if InRange(t) then Some(t) else None;
  }

  /** The reference of a grant is in a list. */
  predicate NamedIn(g: Grant, refs: seq<Text>)
  {
    match FieldOf(g, GrantRef)
    case Some(Str(t)) => t in refs
    case _ => false
  }

  /** Every field of a created grant. */
  lemma CreatedGrantSays(w: World, h: RecordHash, o: GrantOptions)
    requires TimeLaw(w) && CreateConsentGrant(w, h, o).Ok?
    ensures w.parse(o.issuedAt).Some? && (o.expiresAt.Some? ==> w.parse(o.expiresAt.value).Some?)
    ensures var g := CreateConsentGrant(w, h, o).value;
      && g.Record? && g.others == []
      && FieldOf(g, Schema) == Some(Str(Lit("enigma.memory_controller_grant.v1")))
      && FieldOf(g, AppRef) == Some(Str(o.appRef)) && FieldOf(g, PurposeRef) == Some(Str(o.purposeRef))
      && FieldOf(g, PolicyRef) == Some(Str(o.policyRef)) && FieldOf(g, Status) == Some(Str(o.status))
      && (forall t :: Includes(FieldOf(g, Operations), t) <==> t in o.operations)
      && (forall t :: Includes(FieldOf(g, MemoryZoneRefs), t) <==> t in o.zones)
      && FieldOf(g, IssuedAt) == Some(Str(w.format(w.parse(o.issuedAt).value)))
      && FieldOf(g, ExpiresAt) == Some(Str(w.format(ExpiryOf(w, o))))
  {
    hide UniqueSorted, Sealed, Body, RefOf, Expiry, Texts, Includes, FieldOf, OptionsOk, BoundaryOk;
    ExpiryMeaning(w, o);
    var issued, expires := w.parse(o.issuedAt).value, ExpiryOf(w, o);
    SealedFields(w, h, o, issued, expires);
    SealedRecord(h, o, Body(w, o, issued, expires));
    NormalizedSet(o.operations, IsOperation);
    NormalizedSet(o.zones, IsPublicRef);
  }

  /** The references of a grant are those of the caller, or derived from the record without the later ones. */
  ghost predicate DerivesRefs(h: RecordHash, o: GrantOptions, g: Grant)
    requires g.Record?
  {
    && FieldOf(g, GrantRef)
       == Some(Str(if o.grantRef.Some? then o.grantRef.value
                   else Lit("ref:grant:") + h(g.known - {GrantRef, ProofRefs, ReceiptRefs})[..32]))
    && (forall t :: Includes(FieldOf(g, ProofRefs), t) <==>
          if o.proofRefs.Some? then t in o.proofRefs.value
          else t == Lit("ref:proof:") + h(g.known - {ProofRefs, ReceiptRefs})[..32])
    && (forall t :: Includes(FieldOf(g, ReceiptRefs), t) <==>
          if o.receiptRefs.Some? then t in o.receiptRefs.value
          else t == Lit("ref:receipt:") + h(g.known - {ReceiptRefs})[..32])
  }

  lemma CreatedGrantRefs(w: World, h: RecordHash, o: GrantOptions)
    requires CreateConsentGrant(w, h, o).Ok?
    ensures var g := CreateConsentGrant(w, h, o).value; g.Record? && DerivesRefs(h, o, g)
  {
    hide UniqueSorted, Body, Expiry, OptionsOk, Includes, Texts, MakeRef, Lit;
    var expires := Expiry(w, o, w.parse(o.issuedAt).value).value;
    BodyLacksRefs(w, o, w.parse(o.issuedAt).value, expires);
    SealedDerives(h, o, Body(w, o, w.parse(o.issuedAt).value, expires));
    forall d: Digest
      ensures MakeRef(KIND_GRANT, d) == Lit("ref:grant:") + d[..32]
      ensures MakeRef(KIND_PROOF, d) == Lit("ref:proof:") + d[..32]
      ensures MakeRef(KIND_RECEIPT, d) == Lit("ref:receipt:") + d[..32]
    {
      assert "ref:" + "grant" + ":" == "ref:grant:" && "ref:" + "proof" + ":" == "ref:proof:"
        && "ref:" + "receipt" + ":" == "ref:receipt:";
      MadeRefText("grant", d); MadeRefText("proof", d); MadeRefText("receipt", d);
    }
  }

  lemma BodyLacksRefs(w: World, o: GrantOptions, issued: int, expires: int)
    ensures var body := Body(w, o, issued, expires);
      GrantRef !in body && ProofRefs !in body && ReceiptRefs !in body
  {
    hide OwnValue, OwnBody, BoundaryBody;
    RefsNotOwn();
    MergeLacks(OwnBody(w, o, issued, expires), BoundaryBody(), GrantRef);
    MergeLacks(OwnBody(w, o, issued, expires), BoundaryBody(), ProofRefs);
    MergeLacks(OwnBody(w, o, issued, expires), BoundaryBody(), ReceiptRefs);
  }

  lemma MergeLacks(a: map<GrantField, Json>, b: map<GrantField, Json>, f: GrantField)
    requires f !in a && f !in b
    ensures f !in a + b
  {
  }

  lemma RefsNotOwn()
    ensures GrantRef !in OWN_FIELDS && ProofRefs !in OWN_FIELDS && ReceiptRefs !in OWN_FIELDS
  {
  }

  lemma MadeRefText(kind: string, d: Digest)
    ensures MakeRef(Lit(kind), d) == Lit("ref:" + kind + ":") + d[..32]
  {
    assert Lit("ref:" + kind + ":") == Lit("ref:") + Lit(kind) + Lit(":");
  }

  lemma SealedDerives(h: RecordHash, o: GrantOptions, body: map<GrantField, Json>)
    requires GrantRef !in body && ProofRefs !in body && ReceiptRefs !in body
    ensures var known := Sealed(h, o, body).known;
      && known[GrantRef] == Str(RefOf(h, o, known - {GrantRef, ProofRefs, ReceiptRefs}))
      && (forall t :: Includes(Some(known[ProofRefs]), t) <==>
            if o.proofRefs.Some? then t in o.proofRefs.value
            else t == MakeRef(KIND_PROOF, h(known - {ProofRefs, ReceiptRefs})))
      && (forall t :: Includes(Some(known[ReceiptRefs]), t) <==>
            if o.receiptRefs.Some? then t in o.receiptRefs.value
            else t == MakeRef(KIND_RECEIPT, h(known - {ReceiptRefs})))
  {
    hide UniqueSorted, MakeRef, Includes, Texts, RefOf;
    var known := Sealed(h, o, body).known;
    var named := body[GrantRef := Str(RefOf(h, o, body))];
    var proven := named[ProofRefs := RefsOr(o.proofRefs, MakeRef(KIND_PROOF, h(named)))];
    assert known - {GrantRef, ProofRefs, ReceiptRefs} == body;
    assert known - {ProofRefs, ReceiptRefs} == named;
    assert known - {ReceiptRefs} == proven;
    NormalizedSet(if o.proofRefs.Some? then o.proofRefs.value else [MakeRef(KIND_PROOF, h(named))], IsPublicRef);
    NormalizedSet(if o.receiptRefs.Some? then o.receiptRefs.value else [MakeRef(KIND_RECEIPT, h(proven))], IsPublicRef);
  }

  /** A created grant holds for a request exactly when it was given a zone, its times are written with four-digit
      years, it is active, unexpired and not revoked, and the request asks for no more than it was made for. */
  lemma CreatedGrantHolds(w: World, h: RecordHash, o: GrantOptions, s: Scope, now: int)
    requires TimeLaw(w) && CreateConsentGrant(w, h, o).Ok?
    ensures var g := CreateConsentGrant(w, h, o).value;
      GrantOk(w, g, s, now) <==>
        (|o.zones| > 0 && InRange(w.parse(o.issuedAt).value) && InRange(ExpiryOf(w, o)) && now < ExpiryOf(w, o)
         && o.status == Lit("active") && !s.revoked && !NamedIn(g, s.revokedRefs) && Asks(o, s))
  {
    hide UniqueSorted, Sealed, IsPublicRef, IsOperation, ShapeOk, BoundaryOk, Body, RefOf, Expiry;
    ExpiryMeaning(w, o);
    var issued, expires := w.parse(o.issuedAt).value, ExpiryOf(w, o);
    var g := Sealed(h, o, Body(w, o, issued, expires));
    SealedFields(w, h, o, issued, expires);
    SealedShape(w, h, o, issued, expires);
    SealedScope(g, o, s);
    assert w.parse(w.format(expires)) == if InRange(expires) then Some(expires) else None;
  }

  lemma SealedScope(g: Grant, o: GrantOptions, s: Scope)
    requires FieldOf(g, AppRef) == Some(Str(o.appRef)) && FieldOf(g, PurposeRef) == Some(Str(o.purposeRef))
    requires FieldOf(g, Operations) == Some(Texts(UniqueSorted(o.operations)))
    requires FieldOf(g, MemoryZoneRefs) == Some(Texts(UniqueSorted(o.zones)))
    ensures ScopeOk(g, s) <==> Asks(o, s)
  {
    hide UniqueSorted, FieldOf, Includes, Texts;
    NormalizedSet(o.operations, IsOperation);
    NormalizedSet(o.zones, IsPublicRef);
  }

  // ----- Grants that are created and never hold -----

  function DefaultRef(kind: string, name: string): Text { Lit("ref:") + Lit(kind) + (Lit(":") + Lit(name)) }

  predicate IsLowerWord(s: string) { 0 < |s| <= 20 && forall i :: 0 <= i < |s| ==> 'a' <= s[i] <= 'z' }

  lemma DefaultRefIsPublic(kind: string, name: string)
    requires IsLowerWord(kind) && IsLowerWord(name)
    ensures IsPublicRef(DefaultRef(kind, name))
  {
    var t := DefaultRef(kind, name);
    var k := 4 + |kind|;
    assert t[..4] == Lit("ref:") && t[4] == Lit(kind)[0];
    forall i | 5 <= i < |t| ensures IsAlphanumeric(t[i]) || t[i] in Lit("._~:@#?=&%+-") {
      if i < k {
        assert t[i] == Lit(kind)[i - 4];
      } else if i == k {
        assert t[i] == Lit(":")[0] == Lit("._~:@#?=&%+-")[3];
      } else {
        assert t[i] == Lit(name)[i - k - 1];
      }
    }
  }

  /** The default options of `createConsentGrant`, with given zones and expiry. */
  function DefaultOptions(w: World, zones: seq<Text>, expiresAt: Option<Text>): GrantOptions
  {
    GrantOptions(w.format(0), expiresAt, 300, DefaultRef("app", "unspecified"), DefaultRef("purpose", "unspecified"),
      [Lit("recall_context")], zones, ACTIVE, None, DefaultRef("policy", "default"), None, None)
  }

  lemma DefaultOptionsOk(w: World, zones: seq<Text>, expiresAt: Option<Text>)
    requires AllPublic(zones)
    ensures OptionsOk(DefaultOptions(w, zones, expiresAt))
  {
    hide IsPublicRef, DefaultRef;
    DefaultRefIsPublic("app", "unspecified");
    DefaultRefIsPublic("purpose", "unspecified");
    DefaultRefIsPublic("policy", "default");
  }

  /** An empty list of zones: the grant is created, unless its scan fails, and holds for no request at any time. */
  lemma NoZoneNeverHolds(w: World, h: RecordHash)
    requires TimeLaw(w)
    ensures var o := DefaultOptions(w, [], None);
      var g := Sealed(h, o, Body(w, o, 0, 300000));
      w.publicSafe(g) ==> CreateConsentGrant(w, h, o) == Ok(g) && forall s, now :: !GrantOk(w, g, s, now)
  {
    hide Sealed, Body, OptionsOk, GrantOk, DefaultRef;
    var o := DefaultOptions(w, [], None);
    var g := Sealed(h, o, Body(w, o, 0, 300000));
    DefaultOptionsOk(w, [], None);
    assert w.parse(w.format(0)) == Some(0) && w.parse(w.format(300000)) == Some(300000);
    if w.publicSafe(g) {
      assert CreateConsentGrant(w, h, o) == Ok(g);
      forall s, now ensures !GrantOk(w, g, s, now) { CreatedGrantHolds(w, h, o, s, now); }
    }
  }

  /** An expiry at the first instant of the year 10000, which `9999-12-31T24:00:00Z` denotes: the same. */
  lemma LimitTimeNeverHolds(w: World, h: RecordHash, zone: Text, expiresAt: Text)
    requires TimeLaw(w) && IsPublicRef(zone) && w.parse(expiresAt) == Some(TIME_LIMIT)
    ensures var o := DefaultOptions(w, [zone], Some(expiresAt));
      var g := Sealed(h, o, Body(w, o, 0, TIME_LIMIT));
      w.publicSafe(g) ==> CreateConsentGrant(w, h, o) == Ok(g) && forall s, now :: !GrantOk(w, g, s, now)
  {
    hide Sealed, Body, OptionsOk, GrantOk, DefaultRef, IsPublicRef;
    var o := DefaultOptions(w, [zone], Some(expiresAt));
    var g := Sealed(h, o, Body(w, o, 0, TIME_LIMIT));
    DefaultOptionsOk(w, [zone], Some(expiresAt));
    assert w.parse(w.format(0)) == Some(0);
    if w.publicSafe(g) {
      assert CreateConsentGrant(w, h, o) == Ok(g);
      forall s, now ensures !GrantOk(w, g, s, now) { CreatedGrantHolds(w, h, o, s, now); }
    }
  }
}
