/** What the roots of a capsule commit to: the addresses and the receipt hashes of the verified vault writes of the
    exported candidates. */
module CapsuleRoots {
  import opened JsText
  import opened Sorting
  import opened Json
  import opened CanonicalJson
  import opened Hashing
  import opened MerkleSets
  import opened Receipts
  import opened Candidates
  import opened Capsule

  // ----- The writes that count -----

  /** A write of one of the reports. */
  ghost predicate IsReportWrite(reports: seq<Json>, write: Json)
  {
    exists i :: 0 <= i < |reports| && write in AsArray(Property(reports[i], Lit("vault_writes")))
  }

  /** A write that names one of the candidates by a text that is not empty. */
  ghost predicate NamesCandidate(candidates: seq<Json>, write: Json)
  {
    exists j :: 0 <= j < |candidates| && NamedBy(candidates[j], write)
  }

  predicate NamedBy(candidate: Json, write: Json)
  {
    var id := Property(write, Lit("candidate_id"));
    id.Some? && id.value.Str? && id.value.s != [] && Property(candidate, Lit("candidate_id")) == id
  }

  /** A text that a verified write of a candidate has under a key. */
  ghost predicate IsBacked(c: Crypto, candidates: seq<Json>, reports: seq<Json>, key: string, t: Text)
  {
    exists write ::
      && IsReportWrite(reports, write) && IsCanonicalWrite(c, write) && NamesCandidate(candidates, write)
      && Property(write, Lit(key)) == Some(Str(t))
  }

  /** A list of exactly these texts, each once. */
  ghost predicate Lists(c: Crypto, candidates: seq<Json>, reports: seq<Json>, key: string, texts: seq<Text>)
  {
    Distinct(texts) && forall t :: t in texts <==> IsBacked(c, candidates, reports, key, t)
  }

  // ----- Members of the lists in between -----

  lemma {:induction false} GatherMembers(records: seq<Json>, key: Text, x: Json)
    ensures x in Gather(records, key) <==> exists i :: 0 <= i < |records| && x in AsArray(Property(records[i], key))
  {
    if |records| > 0 {
      GatherMembers(records[1..], key, x);
      if x in Gather(records[1..], key) {
        var i :| 0 <= i < |records[1..]| && x in AsArray(Property(records[1..][i], key));
        assert records[i + 1] == records[1..][i];
      }
      if i :| 0 <= i < |records| && x in AsArray(Property(records[i], key)) {
        assert i > 0 ==> records[1..][i - 1] == records[i];
      }
    }
  }

  lemma {:induction false} MappedMembers(candidates: seq<Json>, writes: seq<Write>, w: Write)
    ensures w in Mapped(candidates, writes) <==> w in writes && Str(w.candidateId) in Ids(candidates)
  {
    hide Ids;
    if |writes| > 0 {
      MappedMembers(candidates, writes[1..], w);
      assert writes == [writes[0]] + writes[1..];
    }
  }

  lemma IdsNamed(candidates: seq<Json>, write: Json)
    requires WriteOf(write).Some?
    ensures Str(WriteOf(write).value.candidateId) in Ids(candidates) <==> NamesCandidate(candidates, write)
  {
    var id := Str(WriteOf(write).value.candidateId);
    if id in Ids(candidates) {
      var j :| 0 <= j < |candidates| && HasUsableId(candidates[j]) && Candidates.IdOf(candidates[j]).value == id;
      assert NamedBy(candidates[j], write);
    }
    if NamesCandidate(candidates, write) {
      var j :| 0 <= j < |candidates| && NamedBy(candidates[j], write);
      assert Candidates.IdOf(candidates[j]) == Some(id);
    }
  }

  // ----- Writes with the same key are the same -----

  /** The canonical texts of the receipts that the writes carry. */
  ghost function WriteTexts(writes: seq<Json>): set<Text>
  {
    set k | 0 <= k < |writes| && Property(writes[k], Lit("receipt")).Some? ::
      Canonicalize(Property(writes[k], Lit("receipt")).value)
  }

  /** What a verified write carries: a created receipt at the same address, whose hash it names, and which verifies with
      the key that it gives for the signer. */
  lemma CanonicalWriteSays(c: Crypto, write: Json)
    requires IsCanonicalWrite(c, write)
    ensures WriteOf(write).Some?
    ensures var w, r := WriteOf(write).value, Property(write, Lit("receipt"));
      && r.Some? && r.value.Obj?
      && Property(write, Lit("candidate_id")) == Some(Str(w.candidateId))
      && Property(write, Lit("memory_addr")) == Some(Str(w.memoryAddr))
      && Property(write, Lit("receipt_hash")) == Some(Str(w.receiptHash))
      && (forall t :: Property(write, Lit("event_id")) == Some(Str(t)) <==> w.eventId == Some(t))
      && Property(r.value, Lit("operation")) == Some(Str(Lit("create")))
      && Property(r.value, Lit("memory_addr")) == Some(Str(w.memoryAddr))
      && w.receiptHash == Lit("sha256:") + c.hash(Canonicalize(r.value))
      && IsText(Property(r.value, Lit("receipt_id"))) && IsText(Property(r.value, Lit("event_hash")))
      && IsText(Property(r.value, Lit("active_set_root"))) && IsText(Property(r.value, Lit("receipt_log_root")))
      && IsText(Property(r.value, Lit("previous_receipt_hash"))) && IsText(Property(r.value, Lit("timestamp")))
      && exists key, signer ::
           && Property(write, Lit("receipt_public_key")) == Some(Str(key)) && KeyIdOf(r.value) == Some(Str(signer))
           && ReceiptOk(c, VerifyOptions(Some(signer), Some(key), map[]), r.value)
  {
    hide ReceiptOk, SignerOk, SignatureOk, KeyIdOf, SignatureText, Canonicalize, Lit, Property;
    var r, key := Property(write, Lit("receipt")).value, Property(write, Lit("receipt_public_key"));
    assert KeyIdOf(r) == Some(Str(KeyIdOf(r).value.s)) && key == Some(Str(key.value.s));
  }

  lemma CanonicalWriteParts(c: Crypto, write: Json)
    requires IsCanonicalWrite(c, write)
    ensures WriteOf(write).Some?
    ensures var w, r := WriteOf(write).value, Property(write, Lit("receipt"));
      && r.Some? && r.value.Obj? && w.receiptHash == Prefixed(c.hash(Canonicalize(r.value)))
      && Property(r.value, Lit("memory_addr")) == Some(Str(w.memoryAddr))
  {
    hide IsCanonicalWrite, WriteOf, Property, Canonicalize, Lit;
    CanonicalWriteSays(c, write);
  }

  /** The key of a write, with its zero units, is ambiguous by itself; the hash at its end fixes the receipt, and the
      receipt the address. */
  lemma SameKeySameWrite(c: Crypto, a: Json, b: Json)
    requires IsCanonicalWrite(c, a) && IsCanonicalWrite(c, b) && WellFormed(a) && WellFormed(b)
    requires WriteKey(WriteOf(a).value) == WriteKey(WriteOf(b).value)
    requires CollisionFree(c.hash, WriteTexts([a, b]))
    ensures WriteOf(a).value.(eventId := None) == WriteOf(b).value.(eventId := None)
  {
    hide IsCanonicalWrite, WriteOf, Canonicalize, Property, JsonEqual;
    CanonicalWriteParts(c, a);
    CanonicalWriteParts(c, b);
    var x, y := WriteOf(a).value, WriteOf(b).value;
    var r, s := Property(a, Lit("receipt")).value, Property(b, Lit("receipt")).value;
    var p, q := x.candidateId + [0] + x.memoryAddr + [0], y.candidateId + [0] + y.memoryAddr + [0];
    AppendInjective(p, q, x.receiptHash, y.receiptHash);
    PrefixedInjective(c.hash(Canonicalize(r)), c.hash(Canonicalize(s)));
    assert [a, b][0] == a && [a, b][1] == b;
    assert Canonicalize(r) in WriteTexts([a, b]) && Canonicalize(s) in WriteTexts([a, b]);
    PropertyWellFormed(a, Lit("receipt"));
    PropertyWellFormed(b, Lit("receipt"));
    CanonicalInjective(r, s);
    SameAddress(r, s, x.memoryAddr, y.memoryAddr);
    var addr := x.memoryAddr;
    assert p == x.candidateId + ([0] + addr + [0]) && q == y.candidateId + ([0] + addr + [0]);
    AppendInjective(x.candidateId, y.candidateId, [0] + addr + [0], [0] + addr + [0]);
  }

  lemma SameAddress(r: Json, s: Json, x: Text, y: Text)
    requires WellFormed(r) && WellFormed(s) && JsonEqual(r, s)
    requires Property(r, Lit("memory_addr")) == Some(Str(x)) && Property(s, Lit("memory_addr")) == Some(Str(y))
    ensures x == y
  {
    EqualProps(r, s, Lit("memory_addr"));
  }

  // ----- Roots -----

  /** The receipts of the report writes are told apart by their hashes. */
  ghost predicate ReceiptsApart(h: HashFn, reports: seq<Json>)
  {
    && (forall i :: 0 <= i < |reports| ==> WellFormed(reports[i]))
    && CollisionFree(h, WriteTexts(ReportWrites(reports)))
  }

  lemma WritesWellFormed(reports: seq<Json>, write: Json)
    requires (forall i :: 0 <= i < |reports| ==> WellFormed(reports[i])) && write in ReportWrites(reports)
    ensures WellFormed(write)
  {
    GatherMembers(reports, Lit("vault_writes"), write);
    var i :| 0 <= i < |reports| && write in AsArray(Property(reports[i], Lit("vault_writes")));
    PropertyWellFormed(reports[i], Lit("vault_writes"));
  }

  /** A part of a write, read from its key. */
  ghost predicate Reads(part: Write -> Text, key: string)
  {
    && (forall w: Write :: part(w) == part(w.(eventId := None)))
    && forall write :: WriteOf(write).Some? ==> Property(write, Lit(key)) == Some(Str(part(WriteOf(write).value)))
  }

  lemma AddrReads()
    ensures Reads(AddrOf, "memory_addr")
  {
  }

  lemma HashReads()
    ensures Reads(HashOf, "receipt_hash")
  {
  }

  lemma MappedBacked(c: Crypto, candidates: seq<Json>, reports: seq<Json>, w: Write) returns (write: Json)
    requires w in MappedVaultWrites(c, candidates, reports)
    ensures IsReportWrite(reports, write) && IsCanonicalWrite(c, write) && NamesCandidate(candidates, write)
    ensures WriteOf(write) == Some(w)
  {
    hide IsCanonicalWrite, WriteOf, Ids, Writes, Gather, NamesCandidate, AsArray;
    var writes := ReportWrites(reports);
    MappedMembers(candidates, Writes(c, writes), w);
    WritesMeaning(c, writes);
    var i :| 0 <= i < |Writes(c, writes)| && Writes(c, writes)[i] == w;
    assert IsResult(c, writes, w);
    var k :| 0 <= k < |writes| && IsCanonicalWrite(c, writes[k]) && WriteOf(writes[k]) == Some(w);
    write := writes[k];
    GatherMembers(reports, Lit("vault_writes"), write);
    IdsNamed(candidates, write);
  }

  lemma BackedMapped(c: Crypto, candidates: seq<Json>, reports: seq<Json>, write: Json) returns (w: Write)
    requires ReceiptsApart(c.hash, reports)
    requires IsReportWrite(reports, write) && IsCanonicalWrite(c, write) && NamesCandidate(candidates, write)
    ensures w in MappedVaultWrites(c, candidates, reports)
    ensures WriteOf(write).Some? && WriteOf(write).value.(eventId := None) == w.(eventId := None)
  {
    hide IsCanonicalWrite, WriteOf, WriteKey, Ids, Writes, Gather, NamesCandidate, AsArray, WellFormed, Property;
    var writes := ReportWrites(reports);
    CanonicalWriteParts(c, write);
    GatherMembers(reports, Lit("vault_writes"), write);
    var k :| 0 <= k < |writes| && writes[k] == write;
    WritesMeaning(c, writes);
    var out := Writes(c, writes);
    assert HasKey(out, WriteKey(WriteOf(writes[k]).value));
    var i :| 0 <= i < |out| && WriteKey(out[i]) == WriteKey(WriteOf(write).value);
    w := out[i];
    assert IsResult(c, writes, w);
    var j :| 0 <= j < |writes| && IsCanonicalWrite(c, writes[j]) && WriteOf(writes[j]) == Some(w);
    WritesWellFormed(reports, write);
    WritesWellFormed(reports, writes[j]);
    CollisionFreeSubset(c.hash, WriteTexts([write, writes[j]]), WriteTexts(writes));
    SameKeySameWrite(c, write, writes[j]);
    IdsNamed(candidates, write);
    MappedMembers(candidates, out, w);
  }

  /** One part of the mapped writes, as a set, lists the backed texts. */
  lemma PartListed(c: Crypto, candidates: seq<Json>, reports: seq<Json>, part: Write -> Text, key: string)
    requires ReceiptsApart(c.hash, reports) && Reads(part, key)
    ensures Lists(c, candidates, reports, key, AddAll(Map(part, MappedVaultWrites(c, candidates, reports))))
  {
    hide MappedVaultWrites, IsCanonicalWrite, WriteOf, IsReportWrite, NamesCandidate, Property, ReceiptsApart;
    var writes := MappedVaultWrites(c, candidates, reports);
    var parts := Map(part, writes);
    forall t ensures t in parts <==> IsBacked(c, candidates, reports, key, t) {
      if t in parts {
        var i :| 0 <= i < |parts| && parts[i] == t;
        var write := MappedBacked(c, candidates, reports, writes[i]);
      }
      if IsBacked(c, candidates, reports, key, t) {
        var write :| IsReportWrite(reports, write) && IsCanonicalWrite(c, write) && NamesCandidate(candidates, write)
          && Property(write, Lit(key)) == Some(Str(t));
        var w := BackedMapped(c, candidates, reports, write);
        var i :| 0 <= i < |writes| && writes[i] == w;
        assert parts[i] == t;
      }
    }
    AddAllMembers(parts);
  }

  lemma ListsAgree(c: Crypto, candidates: seq<Json>, reports: seq<Json>, key: string, a: seq<Text>, b: seq<Text>)
    requires Lists(c, candidates, reports, key, a) && Lists(c, candidates, reports, key, b)
    ensures SetRoot(c.hash, a) == SetRoot(c.hash, b)
  {
    hide SetRoot, IsBacked;
    SetRootCanonical(c.hash, a, b);
  }

  lemma SummaryCommits(w: World, payloadHash: Text, candidates: seq<Json>, reports: seq<Json>, addresses: seq<Text>,
      hashes: seq<Text>)
    requires ReceiptsApart(w.crypto.hash, reports)
    requires Lists(w.crypto, candidates, reports, "memory_addr", addresses)
    requires Lists(w.crypto, candidates, reports, "receipt_hash", hashes)
    ensures var s := Summary(w, payloadHash, reports, candidates);
      s.activeSetRoot == SetRoot(w.crypto.hash, addresses) && s.receiptLogRoot == SetRoot(w.crypto.hash, hashes)
  {
    hide SetRoot, MappedVaultWrites, Reads, Lists, ReceiptsApart, LimitationsRoot, SourceRefRoot, CustodyLimitations,
      Counts, AddAll;
    AddrReads();
    HashReads();
    PartListed(w.crypto, candidates, reports, AddrOf, "memory_addr");
    PartListed(w.crypto, candidates, reports, HashOf, "receipt_hash");
    var writes := MappedVaultWrites(w.crypto, candidates, reports);
    ListsAgree(w.crypto, candidates, reports, "memory_addr", AddAll(Map(AddrOf, writes)), addresses);
    ListsAgree(w.crypto, candidates, reports, "receipt_hash", AddAll(Map(HashOf, writes)), hashes);
  }

  /** The active set root of an exported capsule is the root of the addresses of the verified writes of the exported
      candidates, and its receipt log root that of their receipt hashes. */
  lemma ExportedRoots(w: World, a: ExportArgs, addresses: seq<Text>, hashes: seq<Text>)
    requires Export(w, a).Ok? && ReceiptsApart(w.crypto.hash, Records(a.reports))
    requires Lists(w.crypto, ExportedCandidates(w, a), Records(a.reports), "memory_addr", addresses)
    requires Lists(w.crypto, ExportedCandidates(w, a), Records(a.reports), "receipt_hash", hashes)
    ensures var m := Export(w, a).value.manifest;
      m.activeSetRoot == SetRoot(w.crypto.hash, addresses) && m.receiptLogRoot == SetRoot(w.crypto.hash, hashes)
  {
    hide SetRoot, Lists, ReceiptsApart, Summary, ExportedCandidates, Payload;
    var payload := Payload(a.exportedAt, Records(a.reports), ExportedCandidates(w, a));
    SummaryCommits(w, RootOf(w.crypto.hash, payload), ExportedCandidates(w, a), Records(a.reports), addresses, hashes);
  }

  /** The same for every capsule that the importer accepts, about its own payload. */
  lemma ImportedRoots(w: World, capsule: Capsule, anchor: Anchor, now: Option<int>, addresses: seq<Text>,
      hashes: seq<Text>)
    requires Import(w, capsule, anchor, now).ok && ReceiptsApart(w.crypto.hash, ReportsOf(capsule.payload))
    requires var candidates, reports := Import(w, capsule, anchor, now).candidates, ReportsOf(capsule.payload);
      && Lists(w.crypto, candidates, reports, "memory_addr", addresses)
      && Lists(w.crypto, candidates, reports, "receipt_hash", hashes)
    ensures capsule.manifest.activeSetRoot == SetRoot(w.crypto.hash, addresses)
    ensures capsule.manifest.receiptLogRoot == SetRoot(w.crypto.hash, hashes)
  {
    hide SetRoot, Lists, ReceiptsApart, Summary, ReportsOf, CandidatesOf, Agrees, NoConflicts, IsRoot, SignedBy;
    var h, payload := w.crypto.hash, capsule.payload;
    SummaryCommits(w, RootOf(h, payload), CandidatesOf(h, payload), ReportsOf(payload), addresses, hashes);
  }
}
