/** `verifyReceiptChain`: the hash chain of receipts and the root of their log. */
module ReceiptChain {
  import opened JsText
  import opened Sorting
  import opened Json
  import opened CanonicalJson
  import opened Hashing
  import opened Merkle
  import opened MerkleSets
  import opened Receipts
  import opened HashChain

  /** `receiptHash`. */
  function ReceiptHash(c: Crypto, receipt: Json): Text { Prefixed(c.hash(Canonicalize(receipt))) }

  function EntryOf(c: Crypto, o: VerifyOptions, receipt: Json): Entry
  {
    Entry(ReceiptOk(c, o, receipt), receipt.Null?, FieldOf(receipt, Sequence), FieldOf(receipt, PreviousReceiptHash),
          FieldOf(receipt, ReceiptLogRoot), FieldOf(receipt, ActiveSetRoot), ReceiptHash(c, receipt))
  }

  /** How the verifier reads a receipt. */
  function Reader(c: Crypto, o: VerifyOptions): Json -> Entry
  {
    (receipt: Json) => EntryOf(c, o, receipt)
  }

  function Entries(c: Crypto, o: VerifyOptions, receipts: seq<Json>): seq<Entry> { Map(Reader(c, o), receipts) }

  function Hashes(c: Crypto, o: VerifyOptions, receipts: seq<Json>): seq<Text> { EntryHashes(Entries(c, o, receipts)) }

  // ----- What acceptance says of the receipts themselves -----

  function ReceiptHashes(c: Crypto, receipts: seq<Json>): seq<Text>
  {
    seq(|receipts|, i requires 0 <= i < |receipts| => ReceiptHash(c, receipts[i]))
  }

  /** The active root of the last receipt, and that of the empty set for no receipts. */
  function LastActiveRoot(c: Crypto, receipts: seq<Json>): Option<Json>
  {
    if |receipts| == 0 then Some(Str(EmptyRoot(c.hash)))
    else Property(receipts[|receipts| - 1], Lit("active_set_root"))
  }

  /** A receipt verifies, carries its sequence number and the hash of the one before it. */
  ghost predicate ReceiptLinked(c: Crypto, v: VerifyOptions, o: ChainOptions, receipts: seq<Json>, i: nat)
    requires i < |receipts|
  {
    && ReceiptOk(c, v, receipts[i])
    && Property(receipts[i], Lit("sequence")) == Some(Num(o.startSequence + i))
    && Property(receipts[i], Lit("previous_receipt_hash"))
       == Some(Str(if i > 0 then ReceiptHash(c, receipts[i - 1])
                   else if o.previous.Some? then o.previous.value
                   else Lit("GENESIS")))
  }

  /** A receipt carries the root of the log of all receipts before it. */
  ghost predicate ReceiptRooted(c: Crypto, receipts: seq<Json>, i: nat)
    requires i < |receipts|
  {
    Property(receipts[i], Lit("receipt_log_root")) == Some(Str(LogRoot(c.hash, ReceiptHashes(c, receipts[..i]))))
  }

  /** What the verifier accepts: a chain that starts where the options say, and every root and hash that the caller
      expects, in any of the two ways to write a root. */
  ghost predicate ReceiptsAccepted(c: Crypto, v: VerifyOptions, o: ChainOptions, receipts: seq<Json>)
  {
    && (o.previous.Some? || o.startSequence == 0)
    && (forall i :: 0 <= i < |receipts| ==> ReceiptLinked(c, v, o, receipts, i))
    && (o.expectedLogRoot.Some? ==>
          NormalizeRoot(o.expectedLogRoot.value) == Ok(LogRoot(c.hash, ReceiptHashes(c, receipts))))
    && (o.embedded && o.startLogRoot.Some? ==> NormalizeRoot(o.startLogRoot.value) == Ok(EmptyRoot(c.hash)))
    && (o.embedded ==> forall i :: 0 <= i < |receipts| ==> ReceiptRooted(c, receipts, i))
    && (o.expectedActiveRoot.Some? ==>
          var root := NormalizeRoot(o.expectedActiveRoot.value);
          root.Ok? && LastActiveRoot(c, receipts) == Some(Str(root.value)))
    && (o.expectedHashes.Some? ==> o.expectedHashes.value == ReceiptHashes(c, receipts))
  }

  lemma AcceptedReceipts(c: Crypto, v: VerifyOptions, o: ChainOptions, receipts: seq<Json>)
    ensures Accepted(c.hash, o, Entries(c, v, receipts)) <==> ReceiptsAccepted(c, v, o, receipts)
    ensures ActiveRoot(c.hash, Entries(c, v, receipts)) == LastActiveRoot(c, receipts)
    ensures Hashes(c, v, receipts) == ReceiptHashes(c, receipts)
  {
    hide ReceiptOk, LogRoot, NormalizeRoot, ReceiptHash, EntryOf, LinkAt, EmbeddedAt, ReceiptLinked, ReceiptRooted;
    var entries := Entries(c, v, receipts);
    EntriesRead(c, v, receipts);
    if FirstPrevious(o).Some? {
      forall i | 0 <= i < |receipts|
        ensures LinkAt(o.startSequence, FirstPrevious(o).value, entries, i) <==> ReceiptLinked(c, v, o, receipts, i)
      {
        LinkRead(c, v, o, receipts, i);
      }
    }
    forall i | 0 <= i < |receipts| ensures EmbeddedAt(c.hash, entries, i) <==> ReceiptRooted(c, receipts, i) {
      RootRead(c, v, receipts, i);
    }
  }

  lemma EntriesRead(c: Crypto, v: VerifyOptions, receipts: seq<Json>)
    ensures Hashes(c, v, receipts) == ReceiptHashes(c, receipts)
    ensures ActiveRoot(c.hash, Entries(c, v, receipts)) == LastActiveRoot(c, receipts)
  {
    hide ReceiptOk, ReceiptHash, Lit, Property;
  }

  lemma LinkRead(c: Crypto, v: VerifyOptions, o: ChainOptions, receipts: seq<Json>, i: nat)
    requires i < |receipts| && FirstPrevious(o).Some?
    ensures LinkAt(o.startSequence, FirstPrevious(o).value, Entries(c, v, receipts), i) <==>
      ReceiptLinked(c, v, o, receipts, i)
  {
    hide ReceiptOk, ReceiptHash, Lit, Property;
  }

  lemma RootRead(c: Crypto, v: VerifyOptions, receipts: seq<Json>, i: nat)
    requires i < |receipts|
    ensures EmbeddedAt(c.hash, Entries(c, v, receipts), i) <==> ReceiptRooted(c, receipts, i)
  {
    hide ReceiptOk, LogRoot, ReceiptHash, Lit, Property;
    assert EntryHashes(Entries(c, v, receipts))[..i] == ReceiptHashes(c, receipts[..i]);
  }

  // ----- The verifier -----

  datatype ChainError =
    | PreviousRequired | ReceiptInvalid(index: int, error: ReceiptError) | SequenceGap(index: int)
    | PreviousMismatch(index: int) | LogRootMismatch | StartRootMismatch | EmbeddedMismatch(index: int)
    | ActiveRootMismatch | HashesMismatch(count: nat)

  datatype ChainReport = ChainReport(errors: seq<ChainError>, logRoot: Text, activeRoot: Option<Json>,
    hashes: seq<Text>)

  /** One round of the first loop. */
  method CheckReceipt(c: Crypto, o: VerifyOptions, index: nat, sequence: int, previous: Option<Text>, receipt: Json)
    returns (errors: seq<ChainError>, entry: Entry)
    ensures entry == EntryOf(c, o, receipt)
    ensures previous.Some? ==> (errors == [] <==> StepOk(entry, sequence, previous.value))
  {
    var invalid := VerifyReceipt(c, o, receipt);
    errors := seq(|invalid|, k requires 0 <= k < |invalid| => ReceiptInvalid(index, invalid[k]));
    entry := Entry(invalid == [], receipt.Null?, FieldOf(receipt, Sequence), FieldOf(receipt, PreviousReceiptHash),
                   FieldOf(receipt, ReceiptLogRoot), FieldOf(receipt, ActiveSetRoot), ReceiptHash(c, receipt));
    errors := PushUnless(errors, entry.sequence == Some(Num(sequence)), SequenceGap(index));
    errors := PushUnless(errors, previous.Some? ==> entry.previous == Some(Str(previous.value)),
      PreviousMismatch(index));
  }

  /** The first loop: it threads the expected previous hash and collects what it reads of each receipt. */
  method CheckLinks(c: Crypto, o: VerifyOptions, start: int, previous: Option<Text>, receipts: seq<Json>)
    returns (errors: seq<ChainError>, entries: seq<Entry>)
    ensures entries == Entries(c, o, receipts)
    ensures errors == [] <==> ChainedFrom(start, previous, entries)
  {
    hide EntryOf, StepOk, ReceiptOk;
    errors := if previous.None? then [PreviousRequired] else [];
    entries := [];
    var expectedPrevious := previous;
    for index := 0 to |receipts|
      invariant entries == Entries(c, o, receipts[..index])
      invariant previous.Some? ==> expectedPrevious == Some(PreviousAt(previous.value, entries, index))
      invariant errors == [] <==> ChainedFrom(start, previous, entries)
    {
      var found, entry := CheckReceipt(c, o, index, start + index, expectedPrevious, receipts[index]);
      assert |entries| == index;
      ChainedFromSnoc(start, previous, expectedPrevious, entries, entry);
      assert ChainedFrom(start, previous, entries + [entry]) <==> ChainedFrom(start, previous, entries) && found == [];
      errors := errors + found;
      entries := entries + [entry];
      expectedPrevious := Some(entry.hash);
    }
    assert receipts[..|receipts|] == receipts;
  }

  /** `verifyReceiptChain`. */
  method VerifyReceiptChain(c: Crypto, v: VerifyOptions, o: ChainOptions, receipts: seq<Json>)
    returns (r: Result<ChainReport>)
    ensures r.Throws? <==> ThrowsOn(o, Entries(c, v, receipts))
    ensures r.Ok? ==> (r.value.errors == [] <==> Accepted(c.hash, o, Entries(c, v, receipts)))
    ensures r.Ok? ==>
      r.value.hashes == Hashes(c, v, receipts) && r.value.logRoot == LogRoot(c.hash, Hashes(c, v, receipts))
    ensures r.Ok? ==> (r.value.errors == [] <==> ReceiptsAccepted(c, v, o, receipts))
    ensures r.Ok? ==> r.value.hashes == ReceiptHashes(c, receipts) && r.value.activeRoot == LastActiveRoot(c, receipts)
  {
    AcceptedReceipts(c, v, o, receipts);
    var errors, entries := CheckLinks(c, v, o.startSequence, FirstPrevious(o), receipts);
    var rest := CheckRoots(c.hash, o, entries);
    if rest.Throws? { return Throws; }
    r := Ok(rest.value.(errors := errors + rest.value.errors));
  }

  function EmbeddedError(index: int): ChainError { EmbeddedMismatch(index) }

  /** What follows the first loop: the log root, the embedded roots, the active root and the expected hashes. */
  method CheckRoots(h: HashFn, o: ChainOptions, entries: seq<Entry>) returns (r: Result<ChainReport>)
    ensures r.Throws? <==> ThrowsOn(o, entries)
    ensures r.Ok? ==> (ChainedFrom(o.startSequence, FirstPrevious(o), entries) ==>
      (r.value.errors == [] <==> Accepted(h, o, entries)))
    ensures r.Ok? ==> r.value.hashes == EntryHashes(entries) && r.value.logRoot == LogRoot(h, EntryHashes(entries))
    ensures r.Ok? ==> r.value.activeRoot == ActiveRoot(h, entries)
  {
    var errors: seq<ChainError>, hashes := [], EntryHashes(entries);
    var logRoot := ComputeLogRoot(h, hashes);
    var logOk := MatchesRoot(o.expectedLogRoot, Some(Str(logRoot)));
    if logOk.Throws? { return Throws; }
    errors := PushUnless(errors, logOk.value, LogRootMismatch);
    if o.embedded {
      var startOk := MatchesRoot(o.startLogRoot, Some(Str(EmptyRoot(h))));
      if startOk.Throws? { return Throws; }
      errors := PushUnless(errors, startOk.value, StartRootMismatch);
      var mismatches := EmbeddedMismatches(h, entries);
      errors := errors + Map(EmbeddedError, mismatches);
    }
    if |entries| > 0 && entries[|entries| - 1].isNull { return Throws; }
    var activeOk := MatchesRoot(o.expectedActiveRoot, ActiveRoot(h, entries));
    if activeOk.Throws? { return Throws; }
    errors := PushUnless(errors, activeOk.value, ActiveRootMismatch);
    if o.expectedHashes.Some? {
      var mismatches := HashMismatches(o.expectedHashes.value, hashes);
      errors := PushUnless(errors, mismatches == 0, HashesMismatch(mismatches));
    }
    r := Ok(ChainReport(errors, logRoot, ActiveRoot(h, entries), hashes));
  }

  // ----- Binding -----

  ghost predicate SameChain(a: seq<Json>, b: seq<Json>)
  {
    |a| == |b| && forall i :: 0 <= i < |a| ==> JsonEqual(a[i], b[i])
  }

  ghost predicate AllWellFormed(receipts: seq<Json>)
  {
    forall i :: 0 <= i < |receipts| ==> WellFormed(receipts[i])
  }

  /** The canonical texts that are hashed when a chain is verified. */
  ghost function ChainTexts(receipts: seq<Json>): set<Text>
  {
    set i | 0 <= i < |receipts| :: Canonicalize(receipts[i])
  }

  lemma SameHashSameReceipt(c: Crypto, texts: set<Text>, v: Json, w: Json)
    requires WellFormed(v) && WellFormed(w) && CollisionFree(c.hash, texts)
    requires Canonicalize(v) in texts && Canonicalize(w) in texts && ReceiptHash(c, v) == ReceiptHash(c, w)
    ensures JsonEqual(v, w)
  {
    PrefixedInjective(c.hash(Canonicalize(v)), c.hash(Canonicalize(w)));
    CanonicalInjective(v, w);
  }

  /** Receipts equal up to key order have the same number and the same link. */
  lemma SameReceiptSameLinks(v: Json, w: Json, f: ReceiptField)
    requires WellFormed(v) && WellFormed(w) && JsonEqual(v, w)
    requires FieldOf(v, f).Some? && IsScalar(FieldOf(v, f).value)
    ensures FieldOf(w, f) == FieldOf(v, f)
  {
    EqualProps(v, w, Name(f));
  }

  predicate IsScalar(j: Json) { !j.Arr? && !j.Obj? }

  lemma EntriesDetermine(c: Crypto, o: VerifyOptions, p: VerifyOptions, texts: set<Text>, v: Json, w: Json)
    requires WellFormed(v) && WellFormed(w) && CollisionFree(c.hash, texts)
    requires Canonicalize(v) in texts && Canonicalize(w) in texts && ReceiptHash(c, v) == ReceiptHash(c, w)
    requires exists m, s :: StepOk(EntryOf(c, o, v), m, s)
    ensures EntryOf(c, o, v).sequence == EntryOf(c, p, w).sequence
    ensures EntryOf(c, o, v).previous == EntryOf(c, p, w).previous
  {
    SameHashSameReceipt(c, texts, v, w);
    SameReceiptSameLinks(v, w, Sequence);
    SameReceiptSameLinks(v, w, PreviousReceiptHash);
  }

  ghost predicate Distinguishes(c: Crypto, texts: set<Text>, receipts: seq<Json>)
  {
    CollisionFree(c.hash, texts) && AllWellFormed(receipts) && ChainTexts(receipts) <= texts
  }

  lemma ChainsDetermine(c: Crypto, o: VerifyOptions, p: VerifyOptions, texts: set<Text>, start: int, previous: Text,
      a: seq<Json>, b: seq<Json>)
    requires Distinguishes(c, texts, a) && Distinguishes(c, texts, b)
    requires Chained(start, previous, Entries(c, o, a))
    ensures HashesDetermine(Entries(c, o, a), Entries(c, p, b))
  {
    forall i, j | 0 <= i < |a| && 0 <= j < |b| && ReceiptHash(c, a[i]) == ReceiptHash(c, b[j])
      ensures EntryOf(c, o, a[i]).sequence == EntryOf(c, p, b[j]).sequence
      ensures EntryOf(c, o, a[i]).previous == EntryOf(c, p, b[j]).previous
    {
      assert LinkAt(start, previous, Entries(c, o, a), i);
      EntriesDetermine(c, o, p, texts, a[i], b[j]);
    }
  }

  lemma SameHashesSameChain(c: Crypto, o: VerifyOptions, p: VerifyOptions, texts: set<Text>, a: seq<Json>, b: seq<Json>)
    requires Distinguishes(c, texts, a) && Distinguishes(c, texts, b) && Hashes(c, o, a) == Hashes(c, p, b)
    ensures SameChain(a, b)
  {
    assert |a| == |Hashes(c, o, a)| == |Hashes(c, p, b)| == |b|;
    forall i | 0 <= i < |a| ensures JsonEqual(a[i], b[i]) {
      assert Hashes(c, o, a)[i] == Hashes(c, p, b)[i];
      SameHashSameReceipt(c, texts, a[i], b[i]);
    }
  }

  /** Two accepted calls of `verifyReceiptChain` from one start, such as GENESIS, that report the same last hash
      or the same log root were given the same receipts. */
  lemma ReportsBindReceipts(
    c: Crypto, v: VerifyOptions, w: VerifyOptions, o: ChainOptions, p: ChainOptions, a: seq<Json>, b: seq<Json>,
    texts: set<Text>)
    requires Accepted(c.hash, o, Entries(c, v, a)) && Accepted(c.hash, p, Entries(c, w, b))
    requires FirstPrevious(o) == FirstPrevious(p) && o.startSequence == p.startSequence
    requires Distinguishes(c, texts, a) && Distinguishes(c, texts, b)
    requires LogTexts(c.hash, Hashes(c, v, a)) + LogTexts(c.hash, Hashes(c, w, b)) <= texts
    requires var x, y := Hashes(c, v, a), Hashes(c, w, b);
      (|x| > 0 && |y| > 0 && x[|x| - 1] == y[|y| - 1]) || LogRoot(c.hash, x) == LogRoot(c.hash, y)
    ensures SameChain(a, b)
  {
    ChainsDetermine(c, v, w, texts, o.startSequence, FirstPrevious(o).value, a, b);
    CollisionFreeSubset(c.hash, LogTexts(c.hash, Hashes(c, v, a)) + LogTexts(c.hash, Hashes(c, w, b)), texts);
    AcceptedBound(c.hash, o, p, Entries(c, v, a), Entries(c, w, b));
    SameHashesSameChain(c, v, w, texts, a, b);
  }

  // ----- Growth -----

  /** The arguments of a receipt that continues a log: next number, last hash, root of all hashes so far. */
  predicate Continues(h: HashFn, o: ChainOptions, entries: seq<Entry>, args: ReceiptArgs)
  {
    && FirstPrevious(o).Some?
    && args.sequence == o.startSequence + |entries|
    && args.previous == Some(PreviousAt(FirstPrevious(o).value, entries, |entries|))
    && args.receiptLogRoot == Some(LogRoot(h, EntryHashes(entries)))
  }

  lemma LogRootIsRoot(h: HashFn, hashes: seq<Text>)
    ensures IsRoot(LogRoot(h, hashes))
  {
    var values := Sorted(AddAll(hashes));
    if |values| == 0 { PrefixedIsRoot(h(EMPTY_TEXT)); }
    else { PrefixedIsRoot(LevelRoot(h, LeafLevel(h, values))); }
  }

  lemma BodyEntry(c: Crypto, o: VerifyOptions, args: ReceiptArgs, l: Links, receipt: Json)
    requires HasBody(c, args, l, receipt)
    ensures var e := EntryOf(c, o, receipt);
      (StepOk(e, args.sequence, l.previous) <==> ReceiptOk(c, o, receipt)) && e.logRoot == Some(Str(l.receiptLogRoot))
  {
    hide ReceiptOk, FieldOf, SignerRecord, ReceiptHash;
    assert FieldOf(receipt, Sequence) == BodyField(c, args, l, Sequence);
    assert FieldOf(receipt, PreviousReceiptHash) == BodyField(c, args, l, PreviousReceiptHash);
    assert FieldOf(receipt, ReceiptLogRoot) == BodyField(c, args, l, ReceiptLogRoot);
  }

  lemma CreatedEntry(c: Crypto, o: VerifyOptions, args: ReceiptArgs)
    requires SignatureLaw(c) && CreateReceipt(c, args).Ok? && Trusts(c, o, args)
    requires args.previous.Some? && (args.previous.value == GENESIS || IsRoot(args.previous.value))
    requires args.receiptLogRoot.Some? && IsRoot(args.receiptLogRoot.value)
    ensures var e := EntryOf(c, o, CreateReceipt(c, args).value);
      (StepOk(e, args.sequence, args.previous.value) <==> AlgAccepted(args))
        && e.logRoot == Some(Str(args.receiptLogRoot.value))
  {
    CreatedVerifies(c, o, args);
    CreatedHasBody(c, args);
    BodyEntry(c, o, args, NormalizeLinks(c, args).value, CreateReceipt(c, args).value);
  }

  lemma PreviousIsRoot(c: Crypto, o: VerifyOptions, first: Text, receipts: seq<Json>)
    requires first == GENESIS || IsRoot(first)
    ensures var t := PreviousAt(first, Entries(c, o, receipts), |receipts|); t == GENESIS || IsRoot(t)
  {
    if |receipts| > 0 { PrefixedIsRoot(c.hash(Canonicalize(receipts[|receipts| - 1]))); }
  }

  /** Appending a created receipt that continues an accepted log keeps the log accepted, embedded roots included,
      exactly when its signer record names no other algorithm. */
  lemma ChainGrows(c: Crypto, v: VerifyOptions, o: ChainOptions, receipts: seq<Json>, args: ReceiptArgs)
    requires SignatureLaw(c) && OnlyStarts(o) && Accepted(c.hash, o, Entries(c, v, receipts))
    requires FirstPrevious(o).value == GENESIS || IsRoot(FirstPrevious(o).value)
    requires CreateReceipt(c, args).Ok? && Trusts(c, v, args)
    requires Continues(c.hash, o, Entries(c, v, receipts), args)
    ensures Accepted(c.hash, o, Entries(c, v, receipts + [CreateReceipt(c, args).value])) <==> AlgAccepted(args)
  {
    hide EntryOf, CreateReceipt, Trusts, Accepted, LogRoot, EntryHashes, StepOk, IsRoot, OnlyStarts, SignatureLaw,
      AlgAccepted;
    PreviousIsRoot(c, v, FirstPrevious(o).value, receipts);
    LogRootIsRoot(c.hash, Hashes(c, v, receipts));
    CreatedEntry(c, v, args);
    AcceptedGrows(c.hash, o, Reader(c, v), receipts, CreateReceipt(c, args).value);
  }
}
