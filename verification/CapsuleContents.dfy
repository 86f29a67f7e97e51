/** What an exported capsule says, and what an accepted one guarantees, field by field. */
module CapsuleContents {
  import opened JsText
  import opened Sorting
  import opened Json
  import opened CanonicalJson
  import opened Hashing
  import opened MerkleSets
  import opened Receipts
  import opened Candidates
  import opened Capsule
  import opened CapsuleRoots

  // ----- Manifests and metadata -----

  /** The record that a manifest signature covers holds each part of the manifest under its own name. */
  lemma UnsignedSays(m: Manifest)
    ensures var u := Unsigned(m);
      && Property(u, Lit("schema")) == Some(Str(m.schema))
      && Property(u, Lit("capsule_id")) == Some(Str(m.capsuleId))
      && Property(u, Lit("encrypted_payload_hash")) == Some(Str(m.payloadHash))
      && Property(u, Lit("receipt_log_root")) == Some(Str(m.receiptLogRoot))
      && Property(u, Lit("active_set_root")) == Some(Str(m.activeSetRoot))
      && Property(u, Lit("owner_scope_hash")) == Some(Str(m.ownerScopeHash))
      && Property(u, Lit("issuer")) == Some(Str(m.issuer)) && Property(u, Lit("holder")) == Some(Str(m.holder))
      && Property(u, Lit("issued_at")) == Some(Str(m.issuedAt))
      && Property(u, Lit("expires_at")) == Some(Str(m.expiresAt))
  {
    hide Lit, Get;
    var fs := Unsigned(m).fields;
    UnsignedMarks(m);
    forall i | 0 <= i < |fs| ensures Property(Unsigned(m), fs[i].key) == Some(fs[i].value) {
      hide Unsigned;
      GetFirst(fs, i);
    }
    assert fs[0].key == Lit("schema") && fs[1].key == Lit("capsule_id") && fs[2].key == Lit("encrypted_payload_hash")
      && fs[3].key == Lit("receipt_log_root") && fs[4].key == Lit("active_set_root")
      && fs[5].key == Lit("owner_scope_hash") && fs[6].key == Lit("issuer") && fs[7].key == Lit("holder")
      && fs[8].key == Lit("issued_at") && fs[9].key == Lit("expires_at");
  }

  /** Length and first unit tell the names of the signed record apart. */
  lemma UnsignedMarks(m: Manifest)
    ensures var fs := Unsigned(m).fields;
      forall i, j :: 0 <= i < j < |fs| ==> fs[i].key != fs[j].key
  {
    var fs := Unsigned(m).fields;
    var marks :=
      [(6, 's'), (10, 'c'), (22, 'e'), (16, 'r'), (15, 'a'), (16, 'o'), (6, 'i'), (6, 'h'), (9, 'i'), (10, 'e')];
    hide Lit;
    LitMark("schema"); LitMark("capsule_id"); LitMark("encrypted_payload_hash"); LitMark("receipt_log_root");
    LitMark("active_set_root"); LitMark("owner_scope_hash"); LitMark("issuer"); LitMark("holder");
    LitMark("issued_at"); LitMark("expires_at");
    assert forall i :: 0 <= i < |fs| ==> |fs[i].key| == marks[i].0 && fs[i].key[0] == marks[i].1 as int;
    hide Unsigned;
    forall i, j | 0 <= i < j < |fs| ensures fs[i].key != fs[j].key {
      assert marks[i] != marks[j];
    }
  }

  lemma LitMark(s: string)
    requires |s| > 0 && s[0] < 128 as char
    ensures |Lit(s)| == |s| && Lit(s)[0] == s[0] as int
  {
  }

  /** A capsule is exported exactly for parties and times that are not empty, times that can be read, and a node with a
      key id. */
  lemma ExportedExactly(w: World, a: ExportArgs)
    ensures Export(w, a).Ok? <==>
      && [] !in [if a.issuer.Some? then a.issuer.value else a.node.nodeId, a.holder, a.node.keyId]
      && [] !in [a.exportedAt, a.expiresAt]
      && !(w.parse(a.exportedAt).None? || w.parse(a.expiresAt).None?)
  {
    hide Summary, ExportedCandidates, Records;
  }

  /** The manifest of an exported capsule: who issued it to whom and when, the hash of the payload, an id derived from
      these, and a signature over all of them. */
  lemma ExportedManifest(w: World, a: ExportArgs)
    requires Export(w, a).Ok?
    ensures var h, m, payload := w.crypto.hash, Export(w, a).value.manifest, Export(w, a).value.payload;
      && m.schema == Lit("enigma.capsule_manifest.v1")
      && m.issuer == (if a.issuer.Some? then a.issuer.value else a.node.nodeId) && m.holder == a.holder
      && m.issuedAt == a.exportedAt && m.expiresAt == a.expiresAt
      && m.payloadHash == Lit("sha256:") + h(Canonicalize(payload))
      && m.ownerScopeHash == Lit("sha256:") + w.scope(a.holder, Records(a.reports), ExportedCandidates(w, a))
      && m.capsuleId == Lit("cap_") + h(Canonicalize(Obj([
           Field(Lit("issuer"), Str(m.issuer)), Field(Lit("holder"), Str(m.holder)),
           Field(Lit("ownerScope"), Str(m.ownerScopeHash)),
           Field(Lit("encrypted_payload_hash"), Str(m.payloadHash))])))[..32]
      && m.signature == Some(Signed(Lit("Ed25519"), a.node.keyId,
           w.crypto.sign(Canonicalize(Unsigned(m)), a.node.privateKey)))
  {
    hide Canonicalize, Summary, Records, ExportedCandidates, Unsigned;
    SummaryRoots(w, Export(w, a).value.payload, Records(a.reports), ExportedCandidates(w, a));
    assert forall m: Manifest, s :: Unsigned(m.(signature := s)) == Unsigned(m) by { UnsignedKeeps(); }
  }

  lemma UnsignedKeeps()
    ensures forall m: Manifest, s :: Unsigned(m.(signature := s)) == Unsigned(m)
  {
  }

  /** A root of the set of the hashes of the source references of the candidates. */
  ghost predicate ListsRefs(h: HashFn, candidates: seq<Json>, roots: seq<Text>)
  {
    && Distinct(roots)
    && forall t :: t in roots <==> exists i, ref :: IsRef(candidates, i, ref) && t == RootOf(h, ref)
  }

  predicate IsRef(candidates: seq<Json>, i: int, ref: Json)
  {
    0 <= i < |candidates| && ref in AsArray(Property(candidates[i], Lit("source_refs")))
  }

  lemma SourceRefs(h: HashFn, candidates: seq<Json>, roots: seq<Text>)
    requires ListsRefs(h, candidates, roots)
    ensures SourceRefRoot(h, candidates) == SetRoot(h, roots)
  {
    hide SetRoot, Gather, RootOf;
    var refs := Gather(candidates, Lit("source_refs"));
    var all := Roots(h, refs);
    forall t ensures t in all <==> exists i, ref :: IsRef(candidates, i, ref) && t == RootOf(h, ref) {
      if t in all {
        var k :| 0 <= k < |all| && all[k] == t;
        GatherMembers(candidates, Lit("source_refs"), refs[k]);
        var i :| 0 <= i < |candidates| && refs[k] in AsArray(Property(candidates[i], Lit("source_refs")));
        assert IsRef(candidates, i, refs[k]);
      }
      if i, ref :| IsRef(candidates, i, ref) && t == RootOf(h, ref) {
        GatherMembers(candidates, Lit("source_refs"), ref);
        var k :| 0 <= k < |refs| && refs[k] == ref;
        assert all[k] == t;
      }
    }
    AddAllMembers(all);
    SetRootCanonical(h, AddAll(all), roots);
  }

  /** The metadata of an exported capsule, next to its two roots. */
  lemma ExportedMetadata(w: World, a: ExportArgs, roots: seq<Text>)
    requires Export(w, a).Ok? && ListsRefs(w.crypto.hash, ExportedCandidates(w, a), roots)
    ensures var h, reports, candidates := w.crypto.hash, Records(a.reports), ExportedCandidates(w, a);
      var m, d := Export(w, a).value.manifest, Export(w, a).value.metadata;
      && d.payloadHash == m.payloadHash && d.activeSetRoot == m.activeSetRoot && d.receiptLogRoot == m.receiptLogRoot
      && |d.reportHashes| == |reports| && d.candidateCount == |candidates|
      && (forall i :: 0 <= i < |reports| ==> d.reportHashes[i] == Lit("sha256:") + h(Canonicalize(reports[i])))
      && d.sourceRefRoot == SetRoot(h, roots)
      && (d.complete <==>
            && |reports| > 0
            && forall i :: 0 <= i < |reports| ==>
                 && Property(reports[i], Lit("complete")) == Some(Bool(true))
                 && Property(reports[i], Lit("completeness")) == Some(Str(Lit("explicit_complete"))))
  {
    hide SetRoot, LimitationsRoot, SourceRefRoot, CustodyLimitations, Counts, MappedVaultWrites, AddAll, Records,
      ExportedCandidates, Canonicalize, ListsRefs, CapsuleId, Unsigned, Payload;
    SourceRefs(w.crypto.hash, ExportedCandidates(w, a), roots);
    RecordsAreRecords(a.reports);
  }

  /** The payload of an exported capsule. */
  lemma PayloadSays(exportedAt: Text, reports: seq<Json>, candidates: seq<Json>)
    ensures var p := Payload(exportedAt, reports, candidates);
      && Property(p, Lit("schema")) == Some(Str(Lit("enigma.import_capsule_payload.v1")))
      && Property(p, Lit("exported_at")) == Some(Str(exportedAt))
      && Property(p, Lit("reports")) == Some(Arr(reports))
      && Property(p, Lit("memory_candidates")) == Some(Arr(candidates))
      && var boundary := Property(p, Lit("private_plaintext_boundary"));
         boundary.Some? && Property(boundary.value, Lit("contains_private_plaintext")) == Some(Bool(candidates != []))
  {
    hide Boundary;
    var fs := Payload(exportedAt, reports, candidates).fields;
    assert |fs[0].key| == 6 && |fs[1].key| == 11 && |fs[2].key| == 26 && |fs[3].key| == 7 && |fs[4].key| == 17;
    forall i | 0 <= i < |fs| ensures Get(fs, fs[i].key) == Some(fs[i].value) { GetFirst(fs, i); }
    hide Get;
    assert fs[0].key == Lit("schema") && fs[1].key == Lit("exported_at")
      && fs[2].key == Lit("private_plaintext_boundary") && fs[3].key == Lit("reports")
      && fs[4].key == Lit("memory_candidates");
    BoundarySays(|candidates| > 0);
  }

  lemma BoundarySays(plaintext: bool)
    ensures var b := Boundary(plaintext);
      && Property(b, Lit("contains_private_plaintext")) == Some(Bool(plaintext))
      && Property(b, Lit("private_fields"))
         == Some(Arr([Str(Lit("memory_candidates.content")), Str(Lit("reports.memory_candidates.content"))]))
      && Property(b, Lit("public_artifact_policy")) == Some(Str(Lit("manifest_and_verifier_metadata_only")))
  {
    var fs := Boundary(plaintext).fields;
    assert |fs[0].key| == 26 && |fs[1].key| == 14 && |fs[2].key| == 22;
    GetFirst(fs, 0); GetFirst(fs, 1); GetFirst(fs, 2);
  }

  /** What an accepted capsule guarantees: a trusted key has signed the manifest, which has not expired and commits to
      the payload; an embedded descriptor is the trusted one; and the counts and flags are those of the payload. */
  lemma ImportedSays(w: World, capsule: Capsule, anchor: Anchor, now: Option<int>)
    requires Import(w, capsule, anchor, now).ok
    ensures var h, m, d := w.crypto.hash, capsule.manifest, capsule.descriptor;
      && capsule.payload.Obj? && m.payloadHash == Lit("sha256:") + h(Canonicalize(capsule.payload))
      && capsule.payloadHash in {None, Some(m.payloadHash)} && capsule.metadata.payloadHash == m.payloadHash
      && m.schema == Lit("enigma.capsule_manifest.v1")
      && IsRoot(m.payloadHash) && IsRoot(m.receiptLogRoot) && IsRoot(m.activeSetRoot) && IsRoot(m.ownerScopeHash)
      && [] !in [m.capsuleId, m.issuer, m.holder, m.issuedAt, m.expiresAt]
      && (forall n, t :: now == Some(n) && w.parse(m.expiresAt) == Some(t) ==> n < t)
      && m.signature.Some? && m.signature.value.alg == Lit("Ed25519")
      && match anchor
         case ByDescriptor(trusted) =>
           && trusted.keyId == m.signature.value.keyId
           && w.crypto.check(Canonicalize(Unsigned(m)), m.signature.value.value, trusted.publicKey)
           && (d.Some? ==> RootOf(h, d.value.record) == RootOf(h, trusted.record))
         case ByPublicKey(key) =>
           && w.crypto.check(Canonicalize(Unsigned(m)), m.signature.value.value, key)
           && (d.Some? ==> d.value.publicKey == key)
         case NoAnchor => false
    ensures var r, d, reports := Import(w, capsule, anchor, now), capsule.metadata, ReportsOf(capsule.payload);
      && d.candidateCount == |r.candidates| && d.complete == r.complete == IsComplete(reports)
      && d.activeSetRoot == capsule.manifest.activeSetRoot && d.receiptLogRoot == capsule.manifest.receiptLogRoot
      && |d.reportHashes| == |reports|
      && (forall i :: 0 <= i < |reports| ==> d.reportHashes[i] == RootOf(w.crypto.hash, reports[i]))
      && forall i :: 0 <= i < |reports| ==> !Conflicts(reports[i])
  {
    hide SetRoot, LimitationsRoot, SourceRefRoot, CustodyLimitations, Counts, MappedVaultWrites, AddAll, Records,
      Canonicalize, CandidatesOf, ReportsOf, IsComplete, Conflicts, IsRoot, Unsigned;
  }

  // ----- Limitations -----

  /** A write of a report that names a candidate, an address and a receipt hash, verified or not. */
  ghost predicate Claims(candidates: seq<Json>, reports: seq<Json>, write: Json)
  {
    && IsReportWrite(reports, write) && write.Obj?
    && (exists j :: 0 <= j < |candidates| && ClaimedBy(candidates[j], write))
    && IsText(Property(write, Lit("memory_addr"))) && IsText(Property(write, Lit("receipt_hash")))
  }

  /** The ids of a candidate and a write are the same scalar, other than null, false, zero and the empty text. */
  predicate ClaimedBy(candidate: Json, write: Json)
  {
    var id := Property(write, Lit("candidate_id"));
    && id.Some? && id.value !in {Null, Bool(false), Num(0), Str([])} && !id.value.Arr? && !id.value.Obj?
    && Property(candidate, Lit("candidate_id")) == id
  }

  predicate HasReceiptRecord(write: Json)
  {
    Property(write, Lit("receipt")).Some? && Property(write, Lit("receipt")).value.Obj?
  }

  /** The complaint about one write. */
  function CodesOf(c: Crypto, candidates: seq<Json>, write: Json): seq<Limitation>
  {
    WriteLimitations(c, candidates, [write])
  }

  lemma {:induction false} WriteCodes(c: Crypto, candidates: seq<Json>, writes: seq<Json>, l: Limitation)
    ensures l in WriteLimitations(c, candidates, writes) <==>
      exists k :: 0 <= k < |writes| && l in CodesOf(c, candidates, writes[k])
  {
    hide Ids, HasCanonicalReceipt;
    if |writes| > 0 {
      WriteCodes(c, candidates, writes[1..], l);
      OneWrite(c, candidates, writes);
      if l in WriteLimitations(c, candidates, writes[1..]) {
        var k :| 0 <= k < |writes[1..]| && l in CodesOf(c, candidates, writes[1..][k]);
        assert writes[k + 1] == writes[1..][k];
      }
      if k :| 0 <= k < |writes| && l in CodesOf(c, candidates, writes[k]) {
        assert k > 0 ==> writes[1..][k - 1] == writes[k];
      }
    }
  }

  lemma OneWrite(c: Crypto, candidates: seq<Json>, writes: seq<Json>)
    requires |writes| > 0
    ensures WriteLimitations(c, candidates, writes)
         == CodesOf(c, candidates, writes[0]) + WriteLimitations(c, candidates, writes[1..])
  {
    hide Ids, HasCanonicalReceipt;
    assert [writes[0]][1..] == [];
    assert WriteLimitations(c, candidates, []) == [];
  }

  lemma {:induction false} DedupeExactly(codes: seq<Limitation>)
    ensures forall l :: l in Dedupe(codes) <==> l in codes
    ensures forall i, j :: 0 <= i < j < |Dedupe(codes)| ==> Dedupe(codes)[i] != Dedupe(codes)[j]
  {
    if |codes| > 0 {
      var n := |codes| - 1;
      DedupeExactly(codes[..n]);
      assert codes == codes[..n] + [codes[n]];
    }
  }

  lemma ClaimCodes(c: Crypto, candidates: seq<Json>, reports: seq<Json>, write: Json)
    requires IsReportWrite(reports, write)
    ensures CodesOf(c, candidates, write)
         == if !Claims(candidates, reports, write) then []
            else if !HasReceiptRecord(write) then [ReceiptMissing]
            else if !HasCanonicalReceipt(c, write) then [ReceiptUnverified]
            else []
  {
    hide HasCanonicalReceipt, IsReportWrite;
    ClaimedIds(candidates, write);
    assert [write][1..] == [];
    assert WriteLimitations(c, candidates, []) == [];
  }

  lemma ClaimedIds(candidates: seq<Json>, write: Json)
    ensures Property(write, CANDIDATE_ID).Some? && Property(write, CANDIDATE_ID).value in Ids(candidates) <==>
      exists j :: 0 <= j < |candidates| && ClaimedBy(candidates[j], write)
  {
    var id := Property(write, CANDIDATE_ID);
    if id.Some? && id.value in Ids(candidates) {
      var j :| 0 <= j < |candidates| && HasUsableId(candidates[j]) && !HasStructuredId(candidates[j])
        && Candidates.IdOf(candidates[j]).value == id.value;
      assert ClaimedBy(candidates[j], write);
    }
    if j :| 0 <= j < |candidates| && ClaimedBy(candidates[j], write) {
      assert HasUsableId(candidates[j]) && !HasStructuredId(candidates[j]);
    }
  }

  /** `collectCustodyLimitationCodes`: each complaint at most once, and exactly when there is reason for it. */
  lemma CustodyCodes(c: Crypto, candidates: seq<Json>, reports: seq<Json>, writes: seq<Write>)
    ensures var codes := CustodyLimitations(c, candidates, reports, writes);
      && (forall i, j :: 0 <= i < j < |codes| ==> codes[i] != codes[j])
      && (WithoutVaultWrite in codes <==> Counts(candidates, writes).candidateOnly > 0)
      && (ReceiptMissing in codes <==>
            exists write :: Claims(candidates, reports, write) && !HasReceiptRecord(write))
      && (ReceiptUnverified in codes <==>
            exists write :: Claims(candidates, reports, write) && HasReceiptRecord(write)
              && !HasCanonicalReceipt(c, write))
  {
    hide HasCanonicalReceipt, Counts, WriteLimitations, Dedupe, CodesOf, Gather, HasReceiptRecord;
    var all := ReportWrites(reports);
    var found := WriteLimitations(c, candidates, all);
    var before := if Counts(candidates, writes).candidateOnly > 0 then [WithoutVaultWrite] else [];
    DedupeExactly(before + found);
    forall l: Limitation ensures l in found <==>
      exists write :: IsReportWrite(reports, write) && l in CodesOf(c, candidates, write)
    {
      WriteCodes(c, candidates, all, l);
      if k :| 0 <= k < |all| && l in CodesOf(c, candidates, all[k]) {
        GatherMembers(reports, Lit("vault_writes"), all[k]);
      }
      if write :| IsReportWrite(reports, write) && l in CodesOf(c, candidates, write) {
        GatherMembers(reports, Lit("vault_writes"), write);
        var k :| 0 <= k < |all| && all[k] == write;
      }
    }
    forall write | IsReportWrite(reports, write)
      ensures CodesOf(c, candidates, write)
           == if !Claims(candidates, reports, write) then []
              else if !HasReceiptRecord(write) then [ReceiptMissing]
              else if !HasCanonicalReceipt(c, write) then [ReceiptUnverified]
              else []
    {
      ClaimCodes(c, candidates, reports, write);
    }
  }

  lemma LitAppend(a: string, b: string)
    ensures Lit(a) + Lit(b) == Lit(a + b)
  {
  }

  /** The three custody limitations. */
  lemma LimitationsSpelled()
    ensures LimitationText(WithoutVaultWrite)
         == Str(Lit("candidate-only memories are noncanonical until written to a vault; "
                    + "active_set_root commits only vault memory_addr values"))
    ensures LimitationText(ReceiptMissing)
         == Str(Lit("vault_writes without embedded receipt objects are unverified; "
                    + "canonical roots ignore receipt_hash-only claims"))
    ensures LimitationText(ReceiptUnverified)
         == Str(Lit("vault_writes with mismatched receipt evidence are unverified; "
                    + "canonical roots ignore unproven custody claims"))
  {
    hide Lit;
    LitAppend("candidate-only memories are noncanonical until written to a vault; ",
      "active_set_root commits only vault memory_addr values");
    LitAppend("vault_writes without embedded receipt objects are unverified; ",
      "canonical roots ignore receipt_hash-only claims");
    LitAppend("vault_writes with mismatched receipt evidence are unverified; ",
      "canonical roots ignore unproven custody claims");
  }

  /** A value that one of some records lists among its limitations. */
  ghost predicate IsListed(records: seq<Json>, value: Json)
  {
    exists i :: 0 <= i < |records| && value in AsArray(Property(records[i], Lit("limitations")))
  }

  /** A limitation of the custody, of a report or of a candidate, as a trimmed text. */
  ghost predicate IsLimitation(w: World, reports: seq<Json>, candidates: seq<Json>, codes: seq<Limitation>, t: Text)
  {
    || (exists l :: l in codes && Trimmed(w, LimitationText(l)) == t)
    || (exists value :: (IsListed(reports, value) || IsListed(candidates, value)) && Trimmed(w, value) == t)
  }

  lemma LimitationTextsExactly(codes: seq<Limitation>, x: Json)
    ensures x in LimitationTexts(codes) <==> exists l :: l in codes && LimitationText(l) == x
  {
    hide LimitationText;
    if x in LimitationTexts(codes) {
      var l := if WithoutVaultWrite in codes && LimitationText(WithoutVaultWrite) == x then WithoutVaultWrite
        else if ReceiptMissing in codes && LimitationText(ReceiptMissing) == x then ReceiptMissing
        else ReceiptUnverified;
      assert l in codes && LimitationText(l) == x;
    }
    if l :| l in codes && LimitationText(l) == x {
      match l
      case WithoutVaultWrite => assert x in [LimitationText(WithoutVaultWrite)];
      case ReceiptMissing => assert x in [LimitationText(ReceiptMissing)];
      case ReceiptUnverified => assert x in [LimitationText(ReceiptUnverified)];
    }
  }

  /** The limitations root is that of an array of all limitations that are not empty, each once. */
  lemma LimitationsListed(w: World, reports: seq<Json>, candidates: seq<Json>, codes: seq<Limitation>)
      returns (texts: seq<Text>)
    ensures LimitationsRoot(w, reports, candidates, codes)
         == Lit("sha256:") + w.crypto.hash(Canonicalize(Arr(Map(StrOf, texts))))
    ensures forall t :: t in texts <==> t != [] && IsLimitation(w, reports, candidates, codes, t)
    ensures forall i, j :: 0 <= i < j < |texts| ==> texts[i] != texts[j]
  {
    hide Trimmed, UniqueStrings, LimitationTexts, Gather, Canonicalize, LimitationText;
    var a, b, c := LimitationTexts(codes), Gather(reports, Lit("limitations")), Gather(candidates, Lit("limitations"));
    var all := a + b + c;
    texts := UniqueStrings(w, all);
    StringsMeaning(w, all);
    forall t ensures (exists k :: 0 <= k < |all| && Trimmed(w, all[k]) == t)
      <==> IsLimitation(w, reports, candidates, codes, t)
    {
      if k :| 0 <= k < |all| && Trimmed(w, all[k]) == t {
        LimitationMembers(reports, candidates, codes, all[k]);
      }
      if IsLimitation(w, reports, candidates, codes, t) {
        var x := SomeLimitation(w, reports, candidates, codes, t);
        LimitationMembers(reports, candidates, codes, x);
        var k :| 0 <= k < |all| && all[k] == x;
      }
    }
  }

  lemma SomeLimitation(w: World, reports: seq<Json>, candidates: seq<Json>, codes: seq<Limitation>, t: Text)
      returns (x: Json)
    requires IsLimitation(w, reports, candidates, codes, t)
    ensures Trimmed(w, x) == t
    ensures (exists l :: l in codes && LimitationText(l) == x) || IsListed(reports, x) || IsListed(candidates, x)
  {
    hide Trimmed, IsListed, LimitationText;
    if l :| l in codes && Trimmed(w, LimitationText(l)) == t {
      x := LimitationText(l);
    } else {
      x :| (IsListed(reports, x) || IsListed(candidates, x)) && Trimmed(w, x) == t;
    }
  }

  lemma LimitationMembers(reports: seq<Json>, candidates: seq<Json>, codes: seq<Limitation>, x: Json)
    ensures x in LimitationTexts(codes) + Gather(reports, Lit("limitations")) + Gather(candidates, Lit("limitations"))
      <==> (exists l :: l in codes && LimitationText(l) == x) || IsListed(reports, x) || IsListed(candidates, x)
  {
    hide LimitationText, LimitationTexts, Gather;
    LimitationTextsExactly(codes, x);
    GatherMembers(reports, Lit("limitations"), x);
    GatherMembers(candidates, Lit("limitations"), x);
  }

  // ----- Custody -----

  /** The id of a candidate that a verified write names. */
  ghost predicate IsWritten(c: Crypto, candidates: seq<Json>, reports: seq<Json>, id: Json)
  {
    exists write ::
      && IsReportWrite(reports, write) && IsCanonicalWrite(c, write) && NamesCandidate(candidates, write)
      && Property(write, Lit("candidate_id")) == Some(id)
  }

  /** A scalar id of a candidate, other than null, false, zero and the empty text. */
  ghost predicate IsScalarId(candidates: seq<Json>, id: Json)
  {
    && id !in {Null, Bool(false), Num(0), Str([])} && !id.Arr? && !id.Obj?
    && exists j :: 0 <= j < |candidates| && Property(candidates[j], Lit("candidate_id")) == Some(id)
  }

  lemma ScalarIds(candidates: seq<Json>, ids: set<Json>)
    requires forall id :: id in ids <==> IsScalarId(candidates, id)
    ensures ids == Ids(candidates)
  {
    forall id ensures id in Ids(candidates) <==> IsScalarId(candidates, id) {
      if id in Ids(candidates) {
        var j :| 0 <= j < |candidates| && HasUsableId(candidates[j]) && !HasStructuredId(candidates[j])
          && Candidates.IdOf(candidates[j]).value == id;
        assert Property(candidates[j], Lit("candidate_id")) == Some(id);
      }
      if IsScalarId(candidates, id) {
        var j :| 0 <= j < |candidates| && Property(candidates[j], Lit("candidate_id")) == Some(id);
        assert HasUsableId(candidates[j]) && !HasStructuredId(candidates[j]);
      }
    }
  }

  lemma WrittenExactly(c: Crypto, candidates: seq<Json>, reports: seq<Json>, written: set<Json>)
    requires ReceiptsApart(c.hash, reports)
    requires forall id :: id in written <==> IsWritten(c, candidates, reports, id)
    ensures written == WrittenIds(candidates, MappedVaultWrites(c, candidates, reports))
  {
    hide MappedVaultWrites, IsCanonicalWrite, IsReportWrite, NamesCandidate, ReceiptsApart, Ids;
    var writes := MappedVaultWrites(c, candidates, reports);
    forall id ensures id in WrittenIds(candidates, writes) <==> IsWritten(c, candidates, reports, id) {
      if id in WrittenIds(candidates, writes) {
        var i :| 0 <= i < |writes| && Str(writes[i].candidateId) == id;
        var write := MappedBacked(c, candidates, reports, writes[i]);
        assert Property(write, Lit("candidate_id")) == Some(id);
      }
      if IsWritten(c, candidates, reports, id) {
        var write :| IsReportWrite(reports, write) && IsCanonicalWrite(c, write) && NamesCandidate(candidates, write)
          && Property(write, Lit("candidate_id")) == Some(id);
        var w := BackedMapped(c, candidates, reports, write);
        IdsNamed(candidates, write);
        assert id == Str(w.candidateId);
        var i :| 0 <= i < |writes| && writes[i] == w;
      }
    }
  }

  /** What metadata say of candidates and reports: how many ids have a verified write, how many have none, where every
      structured id is one more, and the status and the complaints that follow.  The counts may be missing. */
  ghost predicate DescribesCustody(c: Crypto, d: Metadata, candidates: seq<Json>, reports: seq<Json>, written: nat,
      missing: int)
  {
    && d.canonical in {None, Some(written)} && d.candidateOnly in {None, Some(missing)}
    && d.custody == (if missing > 0 then CandidateOnly else if written > 0 then VaultWriteBacked else Empty)
    && (WithoutVaultWrite in d.codes <==> missing > 0)
    && (ReceiptMissing in d.codes <==>
          exists write :: Claims(candidates, reports, write) && !HasReceiptRecord(write))
    && (ReceiptUnverified in d.codes <==>
          exists write :: Claims(candidates, reports, write) && HasReceiptRecord(write)
            && !HasCanonicalReceipt(c, write))
  }

  /** The ids of candidates, and those of them that have a verified write. */
  ghost predicate CountsIds(c: Crypto, candidates: seq<Json>, reports: seq<Json>, ids: set<Json>, written: set<Json>)
  {
    && (forall id :: id in ids <==> IsScalarId(candidates, id))
    && (forall id :: id in written <==> IsWritten(c, candidates, reports, id))
  }

  function Missing(candidates: seq<Json>, ids: set<Json>, written: set<Json>): int
  {
    |ids| + |StructuredPositions(candidates, |candidates|)| - |written|
  }

  lemma SummaryCustody(w: World, payloadHash: Text, reports: seq<Json>, candidates: seq<Json>, ids: set<Json>,
      written: set<Json>)
    requires ReceiptsApart(w.crypto.hash, reports) && CountsIds(w.crypto, candidates, reports, ids, written)
    ensures var s := Summary(w, payloadHash, reports, candidates);
      && s.canonical == Some(|written|) && s.candidateOnly == Some(Missing(candidates, ids, written))
      && DescribesCustody(w.crypto, s, candidates, reports, |written|, Missing(candidates, ids, written))
  {
    hide SetRoot, LimitationsRoot, SourceRefRoot, CustodyLimitations, MappedVaultWrites, AddAll, Roots, ReceiptsApart,
      IsWritten, IsScalarId, Ids, WrittenIds, StructuredCount, StructuredPositions, Claims, HasReceiptRecord,
      HasCanonicalReceipt, IsComplete;
    var writes := MappedVaultWrites(w.crypto, candidates, reports);
    WrittenExactly(w.crypto, candidates, reports, written);
    ScalarIds(candidates, ids);
    CustodyConserved(candidates, writes);
    StructuredExactly(candidates, |candidates|);
    assert candidates[..|candidates|] == candidates;
    CustodyCodes(w.crypto, candidates, reports, writes);
  }

  /** The metadata of an exported capsule describe the custody of its candidates, with both counts. */
  lemma ExportedCustody(w: World, a: ExportArgs, ids: set<Json>, written: set<Json>)
    requires Export(w, a).Ok? && ReceiptsApart(w.crypto.hash, Records(a.reports))
    requires CountsIds(w.crypto, ExportedCandidates(w, a), Records(a.reports), ids, written)
    ensures var d, candidates := Export(w, a).value.metadata, ExportedCandidates(w, a);
      && d.canonical == Some(|written|) && d.candidateOnly == Some(Missing(candidates, ids, written))
      && DescribesCustody(w.crypto, d, candidates, Records(a.reports), |written|, Missing(candidates, ids, written))
  {
    hide Summary, Records, ExportedCandidates, ReceiptsApart, CountsIds, DescribesCustody, Missing, RootOf;
    var reports, candidates := Records(a.reports), ExportedCandidates(w, a);
    var payload := Payload(a.exportedAt, reports, candidates);
    SummaryCustody(w, RootOf(w.crypto.hash, payload), reports, candidates, ids, written);
  }

  /** So do the metadata of every accepted capsule, for its own payload. */
  lemma ImportedCustody(w: World, capsule: Capsule, anchor: Anchor, now: Option<int>, ids: set<Json>,
      written: set<Json>)
    requires Import(w, capsule, anchor, now).ok && ReceiptsApart(w.crypto.hash, ReportsOf(capsule.payload))
    requires CountsIds(w.crypto, Import(w, capsule, anchor, now).candidates, ReportsOf(capsule.payload), ids, written)
    ensures var candidates := Import(w, capsule, anchor, now).candidates;
      DescribesCustody(w.crypto, capsule.metadata, candidates, ReportsOf(capsule.payload), |written|,
        Missing(candidates, ids, written))
  {
    hide Summary, ReportsOf, CandidatesOf, ReceiptsApart, CountsIds, Missing, RootOf, Claims, HasReceiptRecord,
      HasCanonicalReceipt, ManifestOk, AnchorMatches, NoConflicts, IsComplete;
    var h, payload := w.crypto.hash, capsule.payload;
    SummaryCustody(w, RootOf(h, payload), ReportsOf(payload), CandidatesOf(h, payload), ids, written);
  }

  /** The limitations root of an exported capsule covers the texts of its complaints and the limitations that its
      reports and candidates list. */
  lemma ExportedLimitations(w: World, a: ExportArgs) returns (texts: seq<Text>)
    requires Export(w, a).Ok?
    ensures var d := Export(w, a).value.metadata;
      && d.limitationsRoot == Lit("sha256:") + w.crypto.hash(Canonicalize(Arr(Map(StrOf, texts))))
      && (forall i, j :: 0 <= i < j < |texts| ==> texts[i] != texts[j])
      && forall t :: t in texts <==>
           t != [] && IsLimitation(w, Records(a.reports), ExportedCandidates(w, a), d.codes, t)
  {
    hide SetRoot, LimitationsRoot, SourceRefRoot, CustodyLimitations, MappedVaultWrites, AddAll, Records, Roots,
      ExportedCandidates, Canonicalize, CapsuleId, Unsigned, Payload, Counts, IsComplete, IsLimitation;
    texts := LimitationsListed(w, Records(a.reports), ExportedCandidates(w, a), Export(w, a).value.metadata.codes);
  }
}
