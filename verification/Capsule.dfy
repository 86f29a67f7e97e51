/** Capsule export and import: a payload, a signed manifest that commits to it, and verifier metadata. */
module Capsule {
  import opened JsText
  import opened Sorting
  import opened Json
  import opened CanonicalJson
  import opened Hashing
  import opened Merkle
  import opened MerkleSets
  import opened Receipts
  import opened Candidates
  import opened FirstOfEach

  /** What the capsule code takes from its surroundings: cryptography, dates, trimming and the digest of the
      owner scope. */
  datatype World = World(crypto: Crypto, parse: Text -> Option<int>, trim: Text -> Text,
    scope: (Text, seq<Json>, seq<Json>) -> Digest)

  // ----- Manifests -----

  const MANIFEST_SCHEMA: Text := Lit("enigma.capsule_manifest.v1")

  datatype Signature = Signed(alg: Text, keyId: Text, value: Text)

  datatype Manifest = Manifest(schema: Text, capsuleId: Text, payloadHash: Text, receiptLogRoot: Text,
    activeSetRoot: Text, ownerScopeHash: Text, issuer: Text, holder: Text, issuedAt: Text, expiresAt: Text,
    signature: Option<Signature>)

  /** `signaturePayload`. */
  function Unsigned(m: Manifest): Json
  {
    Obj([ Field(Lit("schema"), Str(m.schema)), Field(Lit("capsule_id"), Str(m.capsuleId)),
          Field(Lit("encrypted_payload_hash"), Str(m.payloadHash)),
          Field(Lit("receipt_log_root"), Str(m.receiptLogRoot)),
          Field(Lit("active_set_root"), Str(m.activeSetRoot)), Field(Lit("owner_scope_hash"), Str(m.ownerScopeHash)),
          Field(Lit("issuer"), Str(m.issuer)), Field(Lit("holder"), Str(m.holder)),
          Field(Lit("issued_at"), Str(m.issuedAt)), Field(Lit("expires_at"), Str(m.expiresAt)) ])
  }

  /** The public part of a node. */
  datatype Descriptor = Descriptor(keyId: Text, publicKey: Text, record: Json)

  datatype Node = Node(nodeId: Text, keyId: Text, privateKey: Text, descriptor: Descriptor)

  /** The descriptor that `createMeshNode` makes names the key of the node. */
  predicate IsNode(w: World, n: Node)
  {
    n.keyId != [] && n.descriptor.keyId == n.keyId && n.descriptor.publicKey == w.crypto.publicKey(n.privateKey)
  }

  datatype Anchor = ByDescriptor(d: Descriptor) | ByPublicKey(key: Text) | NoAnchor

  /** `resolvePublicKey` for an anchor. */
  function PublicKeyFor(anchor: Anchor, keyId: Text): Option<Text>
  {
    match anchor
    case ByDescriptor(d) => if d.keyId == keyId then Some(d.publicKey) else None
    case ByPublicKey(key) => Some(key)
    case NoAnchor => None
  }

  /** `verifySignedRecord`. */
  predicate SignedBy(w: World, m: Manifest, anchor: Anchor)
  {
    && m.signature.Some? && m.signature.value.alg == ED25519
    && var key := PublicKeyFor(anchor, m.signature.value.keyId);
       key.Some? && w.crypto.check(Canonicalize(Unsigned(m)), m.signature.value.value, key.value)
  }

  predicate IsExpired(w: World, m: Manifest, now: Option<int>)
  {
    now.Some? && w.parse(m.expiresAt).Some? && w.parse(m.expiresAt).value <= now.value
  }

  predicate ManifestOk(w: World, m: Manifest, anchor: Anchor, receiptLogRoot: Text, activeSetRoot: Text,
      now: Option<int>)
  {
    && m.schema == MANIFEST_SCHEMA
    && IsRoot(m.payloadHash) && IsRoot(m.receiptLogRoot) && IsRoot(m.activeSetRoot) && IsRoot(m.ownerScopeHash)
    && m.capsuleId != [] && m.issuer != [] && m.holder != [] && m.issuedAt != [] && m.expiresAt != []
    && m.receiptLogRoot == receiptLogRoot && m.activeSetRoot == activeSetRoot
    && !IsExpired(w, m, now) && SignedBy(w, m, anchor)
  }

  datatype Problem =
    | WrongSchema | NotARoot(field: string) | Required(field: string) | ReceiptLogRootMismatch | ActiveSetRootMismatch
    | CapsuleExpired | NoSignature | MalformedSignature | NoPublicKey | WrongSignature
    | PayloadNotObject | PayloadHashMismatch | ManifestPayloadMismatch | MetadataMismatch(field: string)
    | CompletenessConflict

  /** `verifySignedRecord`: at most one complaint. */
  method CheckSignature(w: World, m: Manifest, anchor: Anchor) returns (errors: seq<Problem>)
    ensures errors == [] <==> SignedBy(w, m, anchor)
  {
    if m.signature.None? { return [NoSignature]; }
    if m.signature.value.alg != ED25519 { return [MalformedSignature]; }
    var key := PublicKeyFor(anchor, m.signature.value.keyId);
    if key.None? { return [NoPublicKey]; }
    errors := PushUnless([], w.crypto.check(Canonicalize(Unsigned(m)), m.signature.value.value, key.value),
      WrongSignature);
  }

  /** `verifyCapsuleManifest`. */
  method VerifyCapsuleManifest(w: World, m: Manifest, anchor: Anchor, receiptLogRoot: Text, activeSetRoot: Text,
      now: Option<int>)
    returns (errors: seq<Problem>)
    ensures errors == [] <==> ManifestOk(w, m, anchor, receiptLogRoot, activeSetRoot, now)
  {
    hide IsRoot, IsExpired, SignedBy;
    errors := PushUnless([], m.schema == MANIFEST_SCHEMA, WrongSchema);
    errors := PushUnless(errors, IsRoot(m.payloadHash), NotARoot("encrypted_payload_hash"));
    errors := PushUnless(errors, IsRoot(m.receiptLogRoot), NotARoot("receipt_log_root"));
    errors := PushUnless(errors, IsRoot(m.activeSetRoot), NotARoot("active_set_root"));
    errors := PushUnless(errors, IsRoot(m.ownerScopeHash), NotARoot("owner_scope_hash"));
    errors := PushUnless(errors, m.capsuleId != [], Required("capsule_id"));
    errors := PushUnless(errors, m.issuer != [], Required("issuer"));
    errors := PushUnless(errors, m.holder != [], Required("holder"));
    errors := PushUnless(errors, m.issuedAt != [], Required("issued_at"));
    errors := PushUnless(errors, m.expiresAt != [], Required("expires_at"));
    errors := PushUnless(errors, m.receiptLogRoot == receiptLogRoot, ReceiptLogRootMismatch);
    errors := PushUnless(errors, m.activeSetRoot == activeSetRoot, ActiveSetRootMismatch);
    errors := PushUnless(errors, !IsExpired(w, m, now), CapsuleExpired);
    var signature := CheckSignature(w, m, anchor);
    errors := errors + signature;
  }

  // ----- Payload and metadata -----

  const REPORTS: Text := Lit("reports")
  const MEMORY_CANDIDATES: Text := Lit("memory_candidates")

  function Payload(exportedAt: Text, reports: seq<Json>, candidates: seq<Json>): Json
  {
    Obj([ Field(Lit("schema"), Str(Lit("enigma.import_capsule_payload.v1"))),
          Field(Lit("exported_at"), Str(exportedAt)),
          Field(Lit("private_plaintext_boundary"), Boundary(|candidates| > 0)),
          Field(REPORTS, Arr(reports)), Field(MEMORY_CANDIDATES, Arr(candidates)) ])
  }

  function Boundary(plaintext: bool): Json
  {
    Obj([ Field(Lit("contains_private_plaintext"), Bool(plaintext)),
          Field(Lit("private_fields"),
            Arr([Str(Lit("memory_candidates.content")), Str(Lit("reports.memory_candidates.content"))])),
          Field(Lit("public_artifact_policy"), Str(Lit("manifest_and_verifier_metadata_only"))) ])
  }

  /** The reports and the candidates that the importer reads from a payload. */
  function ReportsOf(payload: Json): seq<Json> { Records(AsArray(Property(payload, REPORTS))) }

  function Reported(reports: seq<Json>): seq<Json> { Gather(reports, MEMORY_CANDIDATES) }

  function CandidatesOf(h: HashFn, payload: Json): seq<Json>
  {
    Unique(h, AsArray(Property(payload, MEMORY_CANDIDATES)) + Reported(ReportsOf(payload)))
  }

  predicate ExplicitlyComplete(report: Json)
  {
    Property(report, Lit("complete")) == Some(Bool(true))
      && Property(report, Lit("completeness")) == Some(Str(Lit("explicit_complete")))
  }

  /** `completenessSummary`. */
  predicate IsComplete(reports: seq<Json>)
  {
    |reports| > 0 && forall i :: 0 <= i < |reports| ==> ExplicitlyComplete(reports[i])
  }

  predicate Conflicts(report: Json)
  {
    var complete, completeness := Property(report, Lit("complete")), Property(report, Lit("completeness"));
    var explicit := completeness == Some(Str(Lit("explicit_complete")));
    var evidence := Property(report, Lit("completeness_evidence"));
    || (complete == Some(Bool(true)) && !explicit) || (complete == Some(Bool(false)) && explicit)
    || (evidence.Some? && Property(evidence.value, Lit("conflicting")) == Some(Bool(true)))
  }

  predicate NoConflicts(reports: seq<Json>) { forall i :: 0 <= i < |reports| ==> !Conflicts(reports[i]) }

  /** A report is free of conflicts when its two flags say the same, if the first is a truth value, and no evidence is
      marked as conflicting. */
  lemma ConflictFree(report: Json)
    ensures !Conflicts(report) <==>
      && (forall b :: Property(report, Lit("complete")) == Some(Bool(b)) ==>
            (b <==> Property(report, Lit("completeness")) == Some(Str(Lit("explicit_complete")))))
      && (forall evidence :: Property(report, Lit("completeness_evidence")) == Some(evidence) ==>
            Property(evidence, Lit("conflicting")) != Some(Bool(true)))
  {
    hide Lit, Property;
  }

  /** `reportCompletenessConflicts`, as the number of complaints. */
  method ReportCompletenessConflicts(reports: seq<Json>) returns (errors: nat)
    ensures errors == 0 <==> NoConflicts(reports)
  {
    errors := 0;
    for i := 0 to |reports|
      invariant errors == 0 <==> forall k :: 0 <= k < i ==> !Conflicts(reports[k])
    {
      if Conflicts(reports[i]) { errors := errors + 1; }
    }
  }

  datatype Limitation = WithoutVaultWrite | ReceiptMissing | ReceiptUnverified

  function Dedupe(codes: seq<Limitation>): seq<Limitation>
  {
    if |codes| == 0 then []
    else
      var n := |codes| - 1;
      var before := Dedupe(codes[..n]);
      if codes[n] in before then before else before + [codes[n]]
  }

  function WriteLimitations(c: Crypto, candidates: seq<Json>, writes: seq<Json>): seq<Limitation>
  {
    if |writes| == 0 then []
    else
      var w := writes[0];
      var claimed := w.Obj? && Property(w, CANDIDATE_ID).Some? && Property(w, CANDIDATE_ID).value in Ids(candidates)
        && IsText(Property(w, Lit("memory_addr"))) && IsText(Property(w, Lit("receipt_hash")));
      var receipt := Property(w, Lit("receipt"));
      (if !claimed then []
       else if receipt.None? || !receipt.value.Obj? then [ReceiptMissing]
       else if !HasCanonicalReceipt(c, w) then [ReceiptUnverified]
       else []) + WriteLimitations(c, candidates, writes[1..])
  }

  /** `collectCustodyLimitationCodes`. */
  function CustodyLimitations(c: Crypto, candidates: seq<Json>, reports: seq<Json>, writes: seq<Write>): seq<Limitation>
  {
    Dedupe((if Counts(candidates, writes).candidateOnly > 0 then [WithoutVaultWrite] else [])
      + WriteLimitations(c, candidates, ReportWrites(reports)))
  }

  function LimitationText(l: Limitation): Json
  {
    Str(match l
      case WithoutVaultWrite =>
        Lit("candidate-only memories are noncanonical until written to a vault; ")
        + Lit("active_set_root commits only vault memory_addr values")
      case ReceiptMissing =>
        Lit("vault_writes without embedded receipt objects are unverified; ")
        + Lit("canonical roots ignore receipt_hash-only claims")
      case ReceiptUnverified =>
        Lit("vault_writes with mismatched receipt evidence are unverified; ")
        + Lit("canonical roots ignore unproven custody claims"))
  }

  /** `custodyLimitationTexts`: in a fixed order. */
  function LimitationTexts(codes: seq<Limitation>): seq<Json>
  {
    (if WithoutVaultWrite in codes then [LimitationText(WithoutVaultWrite)] else [])
    + (if ReceiptMissing in codes then [LimitationText(ReceiptMissing)] else [])
    + (if ReceiptUnverified in codes then [LimitationText(ReceiptUnverified)] else [])
  }

  function Trimmed(w: World, v: Json): Text { w.trim(if v.Null? then [] else ToText(v)) }

  /** `String(value ?? '').trim()`. */
  lemma TrimmedExactly(w: World, v: Json)
    ensures v == Null ==> Trimmed(w, v) == w.trim([])
    ensures v.Str? ==> Trimmed(w, v) == w.trim(v.s)
    ensures v.Bool? || v.Num? ==> Trimmed(w, v) == w.trim(Canonicalize(v))
  {
    ToTextMeaning(v);
  }

  /** The trimmed texts that are not empty. */
  function TextKeys(w: World, values: seq<Json>): (r: seq<Option<Text>>)
    ensures |r| == |values|
  {
    seq(|values|,
      i requires 0 <= i < |values| => if Trimmed(w, values[i]) == [] then None else Some(Trimmed(w, values[i])))
  }

  /** The different texts among them, in the order of their first occurrence. */
  function UniqueStrings(w: World, values: seq<Json>): (r: seq<Text>)
    ensures |r| == |Firsts(TextKeys(w, values))|
  {
    var firsts := Firsts(TextKeys(w, values));
    FirstsExactly(TextKeys(w, values));
    seq(|firsts|, i requires 0 <= i < |firsts| => TextKeys(w, values)[firsts[i]].value)
  }

  /** `uniqueStrings`: the non-empty trimmed texts of the values, each once. */
  method CollectStrings(w: World, values: seq<Json>) returns (out: seq<Text>)
    ensures out == UniqueStrings(w, values)
    ensures forall t :: t in out <==> t != [] && exists k :: 0 <= k < |values| && Trimmed(w, values[k]) == t
    ensures forall i, j :: 0 <= i < j < |out| ==> out[i] != out[j]
  {
    hide Trimmed, Firsts, FirstOfEach.Seen, IsFirst;
    out := [];
    ghost var keys := TextKeys(w, values);
    var seen: set<Text> := {};
    NoStrings(w);
    assert keys[..0] == [];
    for i := 0 to |values|
      invariant out == UniqueStrings(w, values[..i]) && seen == FirstOfEach.Seen(keys[..i])
    {
      SeenSnoc(keys, i);
      StringsSnoc(w, values, i);
      NotFirst(keys, i);
      var text := Trimmed(w, values[i]);
      if text != [] && text !in seen {
        seen := seen + {text};
        out := out + [text];
      }
    }
    assert values[..|values|] == values;
    StringsMeaning(w, values);
  }

  lemma NoStrings(w: World)
    ensures UniqueStrings(w, []) == [] && FirstOfEach.Seen([]) == {}
  {
  }

  lemma StringsSnoc(w: World, values: seq<Json>, n: nat)
    requires n < |values|
    ensures UniqueStrings(w, values[..n + 1])
         == UniqueStrings(w, values[..n]) + if IsFirst(TextKeys(w, values), n) then [Trimmed(w, values[n])] else []
  {
    hide Trimmed;
    var keys := TextKeys(w, values);
    assert TextKeys(w, values[..n]) == keys[..n] && TextKeys(w, values[..n + 1]) == keys[..n + 1];
    SeenSnoc(keys, n);
    FirstsExactly(keys[..n]);
  }

  lemma StringsMeaning(w: World, values: seq<Json>)
    ensures var out := UniqueStrings(w, values);
      && (forall t :: t in out <==> t != [] && exists k :: 0 <= k < |values| && Trimmed(w, values[k]) == t)
      && (forall i, j :: 0 <= i < j < |out| ==> out[i] != out[j])
  {
    hide Trimmed, Firsts;
    var keys, out := TextKeys(w, values), UniqueStrings(w, values);
    var firsts := Firsts(keys);
    FirstsExactly(keys);
    forall i | 0 <= i < |out| ensures out[i] != [] && exists k :: 0 <= k < |values| && Trimmed(w, values[k]) == out[i] {
      assert IsFirst(keys, firsts[i]);
    }
    forall i, j | 0 <= i < j < |out| ensures out[i] != out[j] {
      FirstsDiffer(keys, i, j);
      assert IsFirst(keys, firsts[i]) && IsFirst(keys, firsts[j]);
    }
    forall k | 0 <= k < |values| && Trimmed(w, values[k]) != [] ensures Trimmed(w, values[k]) in out {
      var i := KeyKept(keys, k);
      assert IsFirst(keys, firsts[i]) && out[i] == keys[k].value;
    }
  }

  function StrOf(t: Text): Json { Str(t) }

  function LimitationsRoot(w: World, reports: seq<Json>, candidates: seq<Json>, codes: seq<Limitation>): Text
  {
    var all := LimitationTexts(codes) + Gather(reports, Lit("limitations")) + Gather(candidates, Lit("limitations"));
    RootOf(w.crypto.hash, Arr(Map(StrOf, UniqueStrings(w, all))))
  }

  function Roots(h: HashFn, values: seq<Json>): seq<Text>
  {
    seq(|values|, i requires 0 <= i < |values| => RootOf(h, values[i]))
  }

  function SourceRefRoot(h: HashFn, candidates: seq<Json>): Text
  {
    SetRoot(h, AddAll(Roots(h, Gather(candidates, Lit("source_refs")))))
  }

  function AddrOf(w: Write): Text { w.memoryAddr }

  function HashOf(w: Write): Text { w.receiptHash }

  datatype Metadata = Metadata(payloadHash: Text, reportHashes: seq<Text>, candidateCount: int, sourceRefRoot: Text,
    limitationsRoot: Text, complete: bool, custody: Custody, codes: seq<Limitation>, canonical: Option<int>,
    candidateOnly: Option<int>, activeSetRoot: Text, receiptLogRoot: Text)

  /** What the exporter writes about a payload and the importer computes again. */
  function Summary(w: World, payloadHash: Text, reports: seq<Json>, candidates: seq<Json>): Metadata
  {
    var h := w.crypto.hash;
    var writes := MappedVaultWrites(w.crypto, candidates, reports);
    var counts := Counts(candidates, writes);
    var codes := CustodyLimitations(w.crypto, candidates, reports, writes);
    Metadata(payloadHash, Roots(h, reports), |candidates|, SourceRefRoot(h, candidates),
      LimitationsRoot(w, reports, candidates, codes), IsComplete(reports), CustodyStatus(counts), codes,
      Some(counts.canonical), Some(counts.candidateOnly), SetRoot(h, AddAll(Map(AddrOf, writes))),
      SetRoot(h, AddAll(Map(HashOf, writes))))
  }

  /** `capsuleVerificationErrors` compares field by field; the two counts may be missing. */
  predicate Agrees(claimed: Metadata, computed: Metadata)
  {
    && claimed == computed.(canonical := claimed.canonical, candidateOnly := claimed.candidateOnly)
    && (claimed.canonical.Some? ==> claimed.canonical == computed.canonical)
    && (claimed.candidateOnly.Some? ==> claimed.candidateOnly == computed.candidateOnly)
  }

  // ----- Capsules -----

  datatype Capsule = Capsule(manifest: Manifest, metadata: Metadata, descriptor: Option<Descriptor>,
    payloadHash: Option<Text>, payload: Json)

  datatype ExportArgs = ExportArgs(reports: seq<Json>, candidates: seq<Json>, exportedAt: Text, node: Node,
    issuer: Option<Text>, holder: Text, expiresAt: Text)

  function CapsuleId(h: HashFn, issuer: Text, holder: Text, scope: Text, payloadHash: Text): Text
  {
    Lit("cap_") + h(Canonicalize(Obj([ Field(Lit("issuer"), Str(issuer)), Field(Lit("holder"), Str(holder)),
      Field(Lit("ownerScope"), Str(scope)), Field(Lit("encrypted_payload_hash"), Str(payloadHash)) ])))[..32]
  }

  function IssuerOf(a: ExportArgs): Text { if a.issuer.Some? then a.issuer.value else a.node.nodeId }

  /** What `requiredString` and `dateString` let through. */
  predicate Exportable(w: World, a: ExportArgs)
  {
    && IssuerOf(a) != [] && a.holder != [] && a.exportedAt != [] && a.expiresAt != [] && a.node.keyId != []
    && w.parse(a.exportedAt).Some? && w.parse(a.expiresAt).Some?
  }

  /** `createCapsuleManifest`. */
  function CreateManifest(w: World, a: ExportArgs, payloadHash: Text, receiptLogRoot: Text, activeSetRoot: Text,
      scope: Text): (r: Result<Manifest>)
    ensures r.Ok? <==> Exportable(w, a)
  {
    if !Exportable(w, a) then Throws
    else
      var issuer := IssuerOf(a);
      var m := Manifest(MANIFEST_SCHEMA, CapsuleId(w.crypto.hash, issuer, a.holder, scope, payloadHash), payloadHash,
        receiptLogRoot, activeSetRoot, scope, issuer, a.holder, a.exportedAt, a.expiresAt, None);
      Ok(m.(signature :=
        Some(Signed(ED25519, a.node.keyId, w.crypto.sign(Canonicalize(Unsigned(m)), a.node.privateKey)))))
  }

  function ExportedCandidates(w: World, a: ExportArgs): seq<Json>
  {
    Unique(w.crypto.hash, a.candidates + Reported(Records(a.reports)))
  }

  /** `exportEnigmaCapsule`. */
  function Export(w: World, a: ExportArgs): (r: Result<Capsule>)
    ensures r.Ok? <==> Exportable(w, a)
  {
    var h, reports, candidates := w.crypto.hash, Records(a.reports), ExportedCandidates(w, a);
    var payload := Payload(a.exportedAt, reports, candidates);
    var summary := Summary(w, RootOf(h, payload), reports, candidates);
    match CreateManifest(w, a, summary.payloadHash, summary.receiptLogRoot, summary.activeSetRoot,
      Prefixed(w.scope(a.holder, reports, candidates)))
    case Throws => Throws
    case Ok(m) => Ok(Capsule(m, summary, Some(a.node.descriptor), Some(summary.payloadHash), payload))
  }

  /** `trustAnchorMetadataErrors`. */
  predicate AnchorMatches(w: World, anchor: Anchor, embedded: Option<Descriptor>)
  {
    match anchor
    case ByDescriptor(d) =>
      embedded.None? || RootOf(w.crypto.hash, d.record) == RootOf(w.crypto.hash, embedded.value.record)
    case ByPublicKey(key) => embedded.None? || embedded.value.publicKey == key
    case NoAnchor => false
  }

  datatype ImportResult = ImportResult(ok: bool, manifestOk: bool, metadataOk: bool, complete: bool,
    candidates: seq<Json>)

  /** `importEnigmaCapsule`, without the writes to a vault. */
  function Import(w: World, capsule: Capsule, anchor: Anchor, now: Option<int>): ImportResult
  {
    var h := w.crypto.hash;
    var reports, candidates := ReportsOf(capsule.payload), CandidatesOf(h, capsule.payload);
    var computed := Summary(w, RootOf(h, capsule.payload), reports, candidates);
    var manifestOk := ManifestOk(w, capsule.manifest, anchor, computed.receiptLogRoot, computed.activeSetRoot, now);
    var metadataOk :=
      && AnchorMatches(w, anchor, capsule.descriptor) && capsule.payload.Obj?
      && (capsule.payloadHash.Some? ==> capsule.payloadHash.value == computed.payloadHash)
      && capsule.manifest.payloadHash == computed.payloadHash
      && Agrees(capsule.metadata, computed) && NoConflicts(reports);
    ImportResult(manifestOk && metadataOk, manifestOk, metadataOk, IsComplete(reports), candidates)
  }

  /** `capsuleVerificationErrors`. */
  method CapsuleVerificationErrors(capsule: Capsule, computed: Metadata, reports: seq<Json>)
      returns (errors: seq<Problem>)
    ensures errors == [] <==>
      (capsule.payload.Obj? && (capsule.payloadHash.Some? ==> capsule.payloadHash.value == computed.payloadHash)
       && capsule.manifest.payloadHash == computed.payloadHash && Agrees(capsule.metadata, computed)
       && NoConflicts(reports))
  {
    hide NoConflicts;
    if !capsule.payload.Obj? { return [PayloadNotObject]; }
    var c := capsule.metadata;
    errors := PushUnless([], capsule.payloadHash.Some? ==> capsule.payloadHash.value == computed.payloadHash,
      PayloadHashMismatch);
    errors := PushUnless(errors, capsule.manifest.payloadHash == computed.payloadHash, ManifestPayloadMismatch);
    errors := PushUnless(errors, c.payloadHash == computed.payloadHash, MetadataMismatch("payload_hash"));
    errors := PushUnless(errors, c.candidateCount == computed.candidateCount, MetadataMismatch("candidate_count"));
    errors := PushUnless(errors, c.reportHashes == computed.reportHashes, MetadataMismatch("import_report_hashes"));
    errors := PushUnless(errors, c.sourceRefRoot == computed.sourceRefRoot, MetadataMismatch("source_ref_root"));
    errors := PushUnless(errors, c.limitationsRoot == computed.limitationsRoot, MetadataMismatch("limitations_root"));
    errors := PushUnless(errors, c.activeSetRoot == computed.activeSetRoot, MetadataMismatch("active_set_root"));
    errors := PushUnless(errors, c.receiptLogRoot == computed.receiptLogRoot, MetadataMismatch("receipt_log_root"));
    errors := PushUnless(errors, c.canonical.Some? ==> c.canonical == computed.canonical,
      MetadataMismatch("canonical_candidate_count"));
    errors := PushUnless(errors, c.candidateOnly.Some? ==> c.candidateOnly == computed.candidateOnly,
      MetadataMismatch("candidate_only_count"));
    errors := PushUnless(errors, c.custody == computed.custody, MetadataMismatch("custody_status"));
    errors := PushUnless(errors, c.codes == computed.codes, MetadataMismatch("custody_limitation_codes"));
    errors := PushUnless(errors, c.complete == computed.complete, MetadataMismatch("completeness"));
    var conflicts := ReportCompletenessConflicts(reports);
    errors := errors + seq(conflicts, _ => CompletenessConflict);
  }

  // ----- Round trip -----

  lemma PayloadProperties(exportedAt: Text, reports: seq<Json>, candidates: seq<Json>)
    ensures Property(Payload(exportedAt, reports, candidates), REPORTS) == Some(Arr(reports))
    ensures Property(Payload(exportedAt, reports, candidates), MEMORY_CANDIDATES) == Some(Arr(candidates))
  {
    hide Boundary;
    var fs := Payload(exportedAt, reports, candidates).fields;
    assert |fs[0].key| == 6 && |fs[1].key| == 11 && |fs[2].key| == 26 && |fs[3].key| == 7 && |fs[4].key| == 17;
    assert |REPORTS| == 7 && |MEMORY_CANDIDATES| == 17;
  }

  lemma SetRootIsRoot(h: HashFn, values: seq<Text>)
    ensures IsRoot(SetRoot(h, values))
  {
    hide LevelRoot;
    var sorted := Sorted(values);
    if |sorted| == 0 { PrefixedIsRoot(h(EMPTY_TEXT)); } else { PrefixedIsRoot(LevelRoot(h, LeafLevel(h, sorted))); }
  }

  /** The reports survive the payload, and so do the candidates unless a report has one with a structured id. */
  lemma PayloadRead(w: World, a: ExportArgs)
    ensures var h, reports, candidates := w.crypto.hash, Records(a.reports), ExportedCandidates(w, a);
      var payload := Payload(a.exportedAt, reports, candidates);
      && payload.Obj? && ReportsOf(payload) == reports
      && (CandidatesOf(h, payload) == candidates <==> NoStructuredIds(Reported(reports)))
      && (|CandidatesOf(h, payload)| == |candidates| <==> NoStructuredIds(Reported(reports)))
  {
    hide Payload, Records, Unique, Gather, NoStructuredIds;
    var h, reports, candidates := w.crypto.hash, Records(a.reports), ExportedCandidates(w, a);
    PayloadProperties(a.exportedAt, reports, candidates);
    RecordsAreRecords(a.reports);
    RecordsOfRecords(reports);
    CollectAgain(h, a.candidates, Reported(reports));
  }

  /** A manifest that the exporter signs verifies with the descriptor of its node, as long as it has not expired. */
  lemma CreatedManifestOk(w: World, a: ExportArgs, payloadHash: Text, log: Text, active: Text, scope: Text,
      now: Option<int>)
    requires SignatureLaw(w.crypto) && IsNode(w, a.node)
    requires IsRoot(payloadHash) && IsRoot(log) && IsRoot(active) && IsRoot(scope)
    requires Exportable(w, a)
    ensures var m := CreateManifest(w, a, payloadHash, log, active, scope).value;
      && m.payloadHash == payloadHash && m.expiresAt == a.expiresAt
      && (ManifestOk(w, m, ByDescriptor(a.node.descriptor), log, active, now) <==> !IsExpired(w, m, now))
  {
    hide IsRoot, Canonicalize, CapsuleId;
    var m := CreateManifest(w, a, payloadHash, log, active, scope).value;
    assert Unsigned(m) == Unsigned(m.(signature := None));
    assert m.capsuleId != [] by { CapsuleIdNonEmpty(w.crypto.hash, m.issuer, a.holder, scope, payloadHash); }
  }

  lemma CapsuleIdNonEmpty(h: HashFn, issuer: Text, holder: Text, scope: Text, payloadHash: Text)
    ensures CapsuleId(h, issuer, holder, scope, payloadHash) != []
  {
    hide Canonicalize;
  }

  predicate BeforeExpiry(w: World, a: ExportArgs, now: Option<int>)
  {
    now.Some? && w.parse(a.expiresAt).Some? ==> now.value < w.parse(a.expiresAt).value
  }

  /** Importing an exported capsule with the issuer's descriptor succeeds exactly before it expires, when no report
      has conflicting completeness flags and no reported candidate has a structured id; the last condition is also
      the one for getting the exported candidates back. */
  lemma ExportImport(w: World, a: ExportArgs, now: Option<int>)
    requires SignatureLaw(w.crypto) && IsNode(w, a.node) && Exportable(w, a)
    ensures var r := Import(w, Export(w, a).value, ByDescriptor(a.node.descriptor), now);
      var reports := Records(a.reports);
      && (r.ok <==> BeforeExpiry(w, a, now) && NoConflicts(reports) && NoStructuredIds(Reported(reports)))
      && (r.candidates == ExportedCandidates(w, a) <==> NoStructuredIds(Reported(reports)))
      && (NoStructuredIds(Reported(reports)) ==>
            (r.manifestOk <==> BeforeExpiry(w, a, now)) && (r.metadataOk <==> NoConflicts(reports)))
      && r.complete == IsComplete(reports)
  {
    hide Payload, Records, ExportedCandidates, CandidatesOf, ReportsOf, NoStructuredIds, NoConflicts, IsComplete,
      CreateManifest, ManifestOk, Reported, RootOf, Summary, Agrees, IsNode, SignatureLaw;
    var h, reports, candidates := w.crypto.hash, Records(a.reports), ExportedCandidates(w, a);
    var capsule := Export(w, a).value;
    PayloadRead(w, a);
    var s := Summary(w, RootOf(h, capsule.payload), reports, candidates);
    SummaryRoots(w, capsule.payload, reports, candidates);
    PrefixedIsRoot(w.scope(a.holder, reports, candidates));
    CreatedManifestOk(w, a, s.payloadHash, s.receiptLogRoot, s.activeSetRoot,
      Prefixed(w.scope(a.holder, reports, candidates)), now);
    SummaryAgrees(w, RootOf(h, capsule.payload), reports, candidates, CandidatesOf(h, capsule.payload));
  }

  /** A report with one candidate whose id is an empty object: its capsule is exported and never imported. */
  lemma StructuredIdRefused(w: World, a: ExportArgs, now: Option<int>)
    requires SignatureLaw(w.crypto) && IsNode(w, a.node) && Exportable(w, a)
    requires a.reports == [Obj([Field(MEMORY_CANDIDATES, Arr([Obj([Field(CANDIDATE_ID, Obj([]))])]))])]
    ensures !Import(w, Export(w, a).value, ByDescriptor(a.node.descriptor), now).ok
  {
    hide Export, Import, NoConflicts;
    var candidate := Obj([Field(CANDIDATE_ID, Obj([]))]);
    var report := a.reports[0];
    RecordsOfRecords(a.reports);
    assert Property(report, MEMORY_CANDIDATES) == Some(Arr([candidate]));
    assert AsArray(Property(report, MEMORY_CANDIDATES)) == [candidate];
    assert Gather(a.reports, MEMORY_CANDIDATES) == [candidate] + Gather(a.reports[1..], MEMORY_CANDIDATES);
    assert HasStructuredId(candidate) && Reported(Records(a.reports))[0] == candidate;
    ExportImport(w, a, now);
  }

  lemma SummaryRoots(w: World, payload: Json, reports: seq<Json>, candidates: seq<Json>)
    ensures var s := Summary(w, RootOf(w.crypto.hash, payload), reports, candidates);
      s.payloadHash == RootOf(w.crypto.hash, payload) && IsRoot(s.payloadHash) && IsRoot(s.receiptLogRoot)
        && IsRoot(s.activeSetRoot)
  {
    hide SetRoot, IsRoot, LimitationsRoot, SourceRefRoot, CustodyLimitations, Counts, MappedVaultWrites, AddAll,
      NormalizeLeaf;
    var h := w.crypto.hash;
    var writes := MappedVaultWrites(w.crypto, candidates, reports);
    PrefixedIsRoot(h(NormalizeLeaf(payload)));
    SetRootIsRoot(h, AddAll(Map(AddrOf, writes)));
    SetRootIsRoot(h, AddAll(Map(HashOf, writes)));
  }

  lemma SummaryAgrees(w: World, payloadHash: Text, reports: seq<Json>, candidates: seq<Json>, others: seq<Json>)
    ensures candidates == others ==>
      Agrees(Summary(w, payloadHash, reports, candidates), Summary(w, payloadHash, reports, others))
    ensures |candidates| != |others| ==>
      !Agrees(Summary(w, payloadHash, reports, candidates), Summary(w, payloadHash, reports, others))
  {
    hide SetRoot, LimitationsRoot, SourceRefRoot, CustodyLimitations, Counts, MappedVaultWrites, AddAll;
  }

  /** Two capsules that are accepted under the same manifest carry the same payload up to key order, unless the
      two payload texts collide. */
  lemma ManifestBindsPayload(w: World, first: Capsule, second: Capsule, anchor: Anchor, other: Anchor,
      now: Option<int>, then_: Option<int>)
    requires first.manifest == second.manifest && WellFormed(first.payload) && WellFormed(second.payload)
    requires CollisionFree(w.crypto.hash, {Canonicalize(first.payload), Canonicalize(second.payload)})
    ensures Import(w, first, anchor, now).ok && Import(w, second, other, then_).ok ==>
      JsonEqual(first.payload, second.payload)
  {
    hide Canonicalize, Import, JsonEqual, WellFormed;
    var h := w.crypto.hash;
    if Import(w, first, anchor, now).ok && Import(w, second, other, then_).ok {
      ImportedHash(w, first, anchor, now);
      ImportedHash(w, second, other, then_);
      PrefixedInjective(h(Canonicalize(first.payload)), h(Canonicalize(second.payload)));
      CanonicalInjective(first.payload, second.payload);
    }
  }

  lemma ImportedHash(w: World, capsule: Capsule, anchor: Anchor, now: Option<int>)
    ensures Import(w, capsule, anchor, now).ok ==>
      capsule.payload.Obj? && capsule.manifest.payloadHash == Prefixed(w.crypto.hash(Canonicalize(capsule.payload)))
  {
    hide Canonicalize, Agrees, ManifestOk, NoConflicts, IsComplete, SetRoot, LimitationsRoot, SourceRefRoot,
      CustodyLimitations, Counts, MappedVaultWrites, AddAll, CandidatesOf, ReportsOf;
  }
}
