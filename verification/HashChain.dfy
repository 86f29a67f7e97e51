/** Hash chains in the abstract: what `verifyReceiptChain` reads of each receipt, and what follows from it. */
module HashChain {
  import opened JsText
  import opened Sorting
  import opened Json
  import opened Hashing
  import opened Merkle
  import opened MerkleSets

  const GENESIS: Text := Lit("GENESIS")

  /** What the chain verifier reads of one receipt: whether it verifies, the fields that link it, its hash. */
  datatype Entry = Entry(
    valid: bool, isNull: bool, sequence: Option<Json>, previous: Option<Json>, logRoot: Option<Json>,
    activeRoot: Option<Json>, hash: Text)

  function EntryHashes(entries: seq<Entry>): (r: seq<Text>)
    ensures |r| == |entries|
  {
    seq(|entries|, i requires 0 <= i < |entries| => entries[i].hash)
  }

  /** The root of the set of the hashes of a log. */
  function LogRoot(h: HashFn, hashes: seq<Text>): Text { SetRoot(h, AddAll(hashes)) }

  predicate StepOk(e: Entry, sequence: int, previous: Text)
  {
    e.valid && e.sequence == Some(Num(sequence)) && e.previous == Some(Str(previous))
  }

  /** The hash that the entry at an index must link to. */
  function PreviousAt(previous: Text, entries: seq<Entry>, i: nat): Text
    requires i <= |entries|
  {
    if i == 0 then previous else entries[i - 1].hash
  }

  /** Each entry verifies, carries the next sequence number and links to the hash of the one before. */
  ghost predicate Chained(start: int, previous: Text, entries: seq<Entry>)
  {
    ChainedUpTo(start, previous, entries, |entries|)
  }

  ghost predicate ChainedUpTo(start: int, previous: Text, entries: seq<Entry>, n: nat)
    requires n <= |entries|
  {
    forall i :: 0 <= i < n ==> LinkAt(start, previous, entries, i)
  }

  predicate LinkAt(start: int, previous: Text, entries: seq<Entry>, i: nat)
    requires i < |entries|
  {
    StepOk(entries[i], start + i, PreviousAt(previous, entries, i))
  }

  predicate EmbeddedAt(h: HashFn, entries: seq<Entry>, i: nat)
    requires i < |entries|
  {
    entries[i].logRoot == Some(Str(LogRoot(h, EntryHashes(entries)[..i])))
  }

  /** Each entry carries the root of the log of all entries before it. */
  ghost predicate RootsEmbedded(h: HashFn, entries: seq<Entry>)
  {
    EmbeddedUpTo(h, entries, |entries|)
  }

  ghost predicate EmbeddedUpTo(h: HashFn, entries: seq<Entry>, n: nat)
    requires n <= |entries|
  {
    forall i :: 0 <= i < n ==> EmbeddedAt(h, entries, i)
  }

  // ----- What an accepted chain satisfies -----

  datatype ChainOptions = ChainOptions(
    startSequence: int,                      // 0 when not given
    previous: Option<Text>,
    expectedLogRoot: Option<Text>,
    embedded: bool,                          // verifyEmbeddedReceiptLogRoot
    startLogRoot: Option<Text>,
    expectedActiveRoot: Option<Text>,
    expectedHashes: Option<seq<Text>>)

  /** The previous hash that the first receipt must carry, when it is known. */
  function FirstPrevious(o: ChainOptions): Option<Text>
  {
    if o.previous.Some? then o.previous else if o.startSequence == 0 then Some(GENESIS) else None
  }

  /** A root given by the caller, when there is one, is well-formed and is the computed root. */
  predicate RootExpected(given: Option<Text>, actual: Option<Json>)
  {
    given.Some? ==> NormalizeRoot(given.value).Ok? && actual == Some(Str(NormalizeRoot(given.value).value))
  }

  function ActiveRoot(h: HashFn, entries: seq<Entry>): Option<Json>
  {
    if |entries| == 0 then Some(Str(EmptyRoot(h))) else entries[|entries| - 1].activeRoot
  }

  /** A chain whose first previous hash is known. */
  ghost predicate ChainedFrom(start: int, previous: Option<Text>, entries: seq<Entry>)
  {
    previous.Some? && Chained(start, previous.value, entries)
  }

  ghost predicate Accepted(h: HashFn, o: ChainOptions, entries: seq<Entry>)
  {
    && ChainedFrom(o.startSequence, FirstPrevious(o), entries)
    && RootExpected(o.expectedLogRoot, Some(Str(LogRoot(h, EntryHashes(entries)))))
    && (o.embedded ==> RootExpected(o.startLogRoot, Some(Str(EmptyRoot(h)))) && RootsEmbedded(h, entries))
    && RootExpected(o.expectedActiveRoot, ActiveRoot(h, entries))
    && (o.expectedHashes.Some? ==> o.expectedHashes.value == EntryHashes(entries))
  }

  predicate Malformed(given: Option<Text>) { given.Some? && NormalizeRoot(given.value).Throws? }

  /** The calls that end in a thrown error: a malformed expected root, or a last receipt that is null. */
  predicate ThrowsOn(o: ChainOptions, entries: seq<Entry>)
  {
    || Malformed(o.expectedLogRoot) || (o.embedded && Malformed(o.startLogRoot))
    || (|entries| > 0 && entries[|entries| - 1].isNull) || Malformed(o.expectedActiveRoot)
  }

  // ----- The parts of the verifier that come after the first loop -----

  lemma AddAllSnoc(texts: seq<Text>, i: nat)
    requires i < |texts|
    ensures AddAll(texts[..i + 1]) == Add(AddAll(texts[..i]), texts[i])
  {
    assert texts[..i + 1][..i] == texts[..i];
  }

  /** The second loop of `verifyReceiptChain`: it rebuilds the log root of every prefix in one growing set. */
  method EmbeddedMismatches(h: HashFn, entries: seq<Entry>) returns (mismatches: seq<int>)
    ensures forall i :: i in mismatches <==> 0 <= i < |entries| && !EmbeddedAt(h, entries, i)
    ensures forall j, k :: 0 <= j < k < |mismatches| ==> mismatches[j] < mismatches[k]
    ensures mismatches == [] <==> RootsEmbedded(h, entries)
  {
    hide SetRoot, Add, AddAll, EmbeddedAt, LogRoot;
    mismatches := [];
    var prefix := new MerkleSet(h, []);
    ghost var hashes := EntryHashes(entries);
    for index := 0 to |entries|
      invariant fresh(prefix) && prefix.Valid() && prefix.h == h && prefix.values == AddAll(hashes[..index])
      invariant forall i :: i in mismatches <==> 0 <= i < index && !EmbeddedAt(h, entries, i)
      invariant forall j, k :: 0 <= j < k < |mismatches| ==> mismatches[j] < mismatches[k]
    {
      var priorRoot := prefix.Root();
      EmbeddedHere(h, entries, index, priorRoot);
      ghost var before := mismatches;
      mismatches := PushUnless(mismatches, entries[index].logRoot == Some(Str(priorRoot)), index);
      AscendingSnoc(before, index);
      AddAllSnoc(hashes, index);
      prefix.Insert(Str(entries[index].hash));
    }
    NoMismatch(h, entries, mismatches);
  }

  lemma EmbeddedHere(h: HashFn, entries: seq<Entry>, i: nat, root: Text)
    requires i < |entries| && root == SetRoot(h, AddAll(EntryHashes(entries)[..i]))
    ensures EmbeddedAt(h, entries, i) <==> entries[i].logRoot == Some(Str(root))
  {
  }

  lemma AscendingSnoc(s: seq<int>, n: int)
    requires (forall i :: i in s ==> i < n) && forall j, k :: 0 <= j < k < |s| ==> s[j] < s[k]
    ensures forall j, k :: 0 <= j < k < |s + [n]| ==> (s + [n])[j] < (s + [n])[k]
  {
    forall j, k | 0 <= j < k < |s + [n]| ensures (s + [n])[j] < (s + [n])[k] {
      assert s[j] in s;
    }
  }

  lemma NoMismatch(h: HashFn, entries: seq<Entry>, mismatches: seq<int>)
    requires forall i :: i in mismatches <==> 0 <= i < |entries| && !EmbeddedAt(h, entries, i)
    ensures mismatches == [] <==> RootsEmbedded(h, entries)
  {
    hide EmbeddedAt;
    if mismatches == [] {
      forall i | 0 <= i < |entries| ensures EmbeddedAt(h, entries, i) { assert i !in mismatches; }
    } else {
      var i := mismatches[0];
      assert i in mismatches;
      assert !EmbeddedAt(h, entries, i);
    }
  }

  method ComputeLogRoot(h: HashFn, hashes: seq<Text>) returns (root: Text)
    ensures root == LogRoot(h, hashes)
  {
    assert Map(NormalizeLeaf, Map(StrOf, hashes)) == hashes;
    var log := new MerkleSet(h, Map(StrOf, hashes));
    root := log.Root();
  }

  function StrOf(t: Text): Json { Str(t) }

  /** Compares a root given by the caller, if any, with the computed one; throws when it is malformed. */
  method MatchesRoot(given: Option<Text>, actual: Option<Json>) returns (r: Result<bool>)
    ensures r.Throws? <==> Malformed(given)
    ensures r.Ok? ==> (r.value <==> RootExpected(given, actual))
  {
    if given.None? { return Ok(true); }
    var expected := NormalizeRoot(given.value);
    r := if expected.Throws? then Throws else Ok(actual == Some(Str(expected.value)));
  }

  /** How many of the expected hashes differ from the computed ones, counting a wrong length as one. */
  method HashMismatches(expected: seq<Text>, hashes: seq<Text>) returns (mismatches: nat)
    ensures mismatches == 0 <==> expected == hashes
  {
    mismatches := if |expected| != |hashes| then 1 else 0;
    var length := if |expected| < |hashes| then |expected| else |hashes|;
    for index := 0 to length
      invariant mismatches == 0 <==> |expected| == |hashes| && forall i :: 0 <= i < index ==> expected[i] == hashes[i]
    {
      if expected[index] != hashes[index] { mismatches := mismatches + 1; }
    }
  }

  // ----- Binding -----

  /** Entries of the two chains with equal hashes have equal links, as when hashes do not collide. */
  ghost predicate HashesDetermine(a: seq<Entry>, b: seq<Entry>)
  {
    forall i, j :: 0 <= i < |a| && 0 <= j < |b| && a[i].hash == b[j].hash ==>
      a[i].sequence == b[j].sequence && a[i].previous == b[j].previous
  }

  lemma ChainedPrefix(start: int, previous: Text, entries: seq<Entry>, n: nat)
    requires Chained(start, previous, entries) && n <= |entries|
    ensures Chained(start, previous, entries[..n])
  {
    var p := entries[..n];
    forall i | 0 <= i < n ensures LinkAt(start, previous, p, i) {
      assert LinkAt(start, previous, entries, i);
    }
  }

  /** Two chains from one start with the same last hash have the same hashes. */
  lemma {:induction false} BoundByLastHash(start: int, previous: Text, a: seq<Entry>, b: seq<Entry>)
    requires Chained(start, previous, a) && Chained(start, previous, b) && HashesDetermine(a, b)
    requires |a| > 0 && |b| > 0 && a[|a| - 1].hash == b[|b| - 1].hash
    ensures EntryHashes(a) == EntryHashes(b)
  {
    var m, n := |a| - 1, |b| - 1;
    assert LinkAt(start, previous, a, m);
    assert LinkAt(start, previous, b, n);
    if m > 0 {
      ChainedPrefix(start, previous, a, m);
      ChainedPrefix(start, previous, b, m);
      BoundByLastHash(start, previous, a[..m], b[..m]);
      assert EntryHashes(a) == EntryHashes(a[..m]) + [a[m].hash];
      assert EntryHashes(b) == EntryHashes(b[..m]) + [b[m].hash];
    }
  }

  lemma SharedHash(start: int, previous: Text, a: seq<Entry>, b: seq<Entry>, i: nat)
    requires Chained(start, previous, a) && Chained(start, previous, b) && HashesDetermine(a, b)
    requires i < |a| && a[i].hash in EntryHashes(b)
    ensures i < |b| && a[i].hash == b[i].hash
  {
    var j :| 0 <= j < |b| && EntryHashes(b)[j] == a[i].hash;
    assert LinkAt(start, previous, a, i);
    assert LinkAt(start, previous, b, j);
  }

  lemma SharedHashes(start: int, previous: Text, a: seq<Entry>, b: seq<Entry>)
    requires Chained(start, previous, a) && Chained(start, previous, b) && HashesDetermine(a, b)
    requires forall t :: t in EntryHashes(a) ==> t in EntryHashes(b)
    ensures |a| <= |b| && forall i :: 0 <= i < |a| ==> a[i].hash == b[i].hash
  {
    forall i | 0 <= i < |a| ensures i < |b| && a[i].hash == b[i].hash {
      assert EntryHashes(a)[i] in EntryHashes(a);
      SharedHash(start, previous, a, b, i);
    }
    if |a| > 0 {
      assert EntryHashes(a)[|a| - 1] in EntryHashes(a);
      SharedHash(start, previous, a, b, |a| - 1);
    }
  }

  /** The texts hashed for the root of a log. */
  ghost function LogTexts(h: HashFn, hashes: seq<Text>): set<Text>
  {
    RootTexts(h, Sorted(AddAll(hashes)))
  }

  lemma SameRootSameSet(h: HashFn, a: seq<Text>, b: seq<Text>)
    requires LogRoot(h, a) == LogRoot(h, b) && CollisionFree(h, LogTexts(h, a) + LogTexts(h, b))
    ensures forall t :: t in a <==> t in b
  {
    AddAllMembers(a);
    AddAllMembers(b);
    SetRootCanonical(h, AddAll(a), AddAll(b));
    assert forall t :: t in a <==> t in AddAll(a);
    assert forall t :: t in b <==> t in AddAll(b);
  }

  /** Two chains from one start with the same log root have the same hashes in the same order: the root is that
      of an unordered set, but the sequence numbers fix the order. */
  lemma BoundByLogRoot(h: HashFn, start: int, previous: Text, a: seq<Entry>, b: seq<Entry>)
    requires Chained(start, previous, a) && Chained(start, previous, b) && HashesDetermine(a, b)
    requires LogRoot(h, EntryHashes(a)) == LogRoot(h, EntryHashes(b))
    requires CollisionFree(h, LogTexts(h, EntryHashes(a)) + LogTexts(h, EntryHashes(b)))
    ensures EntryHashes(a) == EntryHashes(b)
  {
    SameRootSameSet(h, EntryHashes(a), EntryHashes(b));
    SharedHashes(start, previous, a, b);
    SharedHashes(start, previous, b, a);
  }

  // ----- Splitting and growth -----

  /** A chain in two parts is chained exactly when the first is, and the second is from where the first ends. */
  lemma ChainedSplit(start: int, previous: Text, a: seq<Entry>, b: seq<Entry>)
    ensures Chained(start, previous, a + b) <==>
      Chained(start, previous, a) && Chained(start + |a|, PreviousAt(previous, a, |a|), b)
  {
    var ab, middle, next := a + b, PreviousAt(previous, a, |a|), start + |a|;
    if Chained(start, previous, ab) {
      assert ab[..|a|] == a;
      ChainedPrefix(start, previous, ab, |a|);
      forall i | 0 <= i < |b| ensures LinkAt(next, middle, b, i) {
        assert LinkAt(start, previous, ab, |a| + i);
      }
    }
    if Chained(start, previous, a) && Chained(start + |a|, middle, b) {
      forall i | 0 <= i < |ab| ensures LinkAt(start, previous, ab, i) {
        if i < |a| {
          assert LinkAt(start, previous, a, i);
        } else {
          assert LinkAt(next, middle, b, i - |a|);
        }
      }
    }
  }

  lemma ChainedSnoc(start: int, previous: Text, entries: seq<Entry>, e: Entry)
    ensures Chained(start, previous, entries + [e]) <==>
      Chained(start, previous, entries) && StepOk(e, start + |entries|, PreviousAt(previous, entries, |entries|))
  {
    ChainedSplit(start, previous, entries, [e]);
    var next, middle := start + |entries|, PreviousAt(previous, entries, |entries|);
    assert LinkAt(next, middle, [e], 0) <==> StepOk(e, next, middle);
  }

  lemma ChainedFromSnoc(start: int, previous: Option<Text>, expected: Option<Text>, entries: seq<Entry>, e: Entry)
    requires previous.Some? ==> expected == Some(PreviousAt(previous.value, entries, |entries|))
    ensures ChainedFrom(start, previous, entries + [e]) <==>
      ChainedFrom(start, previous, entries) && expected.Some? && StepOk(e, start + |entries|, expected.value)
  {
    if previous.Some? { ChainedSnoc(start, previous.value, entries, e); }
  }

  lemma HashesAppend(a: seq<Entry>, b: seq<Entry>)
    ensures EntryHashes(a + b) == EntryHashes(a) + EntryHashes(b)
  {
  }

  /** The second part of a log carries the roots of the whole log, from where the first part ends. */
  ghost predicate RootsContinue(h: HashFn, a: seq<Entry>, b: seq<Entry>)
  {
    forall i :: 0 <= i < |b| ==> ContinuesAt(h, a, b, i)
  }

  predicate ContinuesAt(h: HashFn, a: seq<Entry>, b: seq<Entry>, i: nat)
    requires i < |b|
  {
    b[i].logRoot == Some(Str(LogRoot(h, EntryHashes(a) + EntryHashes(b)[..i])))
  }

  /** Embedded roots of a chain in two parts: those of the first, and those of the second over the whole log. */
  lemma EmbeddedSplit(h: HashFn, a: seq<Entry>, b: seq<Entry>)
    ensures RootsEmbedded(h, a + b) <==> RootsEmbedded(h, a) && RootsContinue(h, a, b)
  {
    var ab := a + b;
    HashesAppend(a, b);
    forall i | 0 <= i < |a| ensures EmbeddedAt(h, ab, i) <==> EmbeddedAt(h, a, i) {
      assert EntryHashes(ab)[..i] == EntryHashes(a)[..i];
    }
    var n := |a|;
    forall i | 0 <= i < |b| ensures EmbeddedAt(h, ab, n + i) <==> ContinuesAt(h, a, b, i) {
      assert EntryHashes(ab)[..n + i] == EntryHashes(a) + EntryHashes(b)[..i];
    }
    hide EmbeddedAt, ContinuesAt;
    if RootsEmbedded(h, ab) {
      forall i | 0 <= i < |a| ensures EmbeddedAt(h, a, i) { assert EmbeddedAt(h, ab, i); }
      forall i | 0 <= i < |b| ensures ContinuesAt(h, a, b, i) { assert EmbeddedAt(h, ab, n + i); }
    }
    if RootsEmbedded(h, a) && RootsContinue(h, a, b) {
      forall k | 0 <= k < |ab| ensures EmbeddedAt(h, ab, k) {
        if k < n { assert EmbeddedAt(h, a, k); } else { assert ContinuesAt(h, a, b, k - n); }
      }
    }
  }

  /** One entry more carries the root of the whole log before it. */
  lemma EmbeddedSnoc(h: HashFn, a: seq<Entry>, e: Entry)
    ensures RootsEmbedded(h, a + [e]) <==>
      RootsEmbedded(h, a) && e.logRoot == Some(Str(LogRoot(h, EntryHashes(a))))
  {
    EmbeddedSplit(h, a, [e]);
    assert EntryHashes(a) + EntryHashes([e])[..0] == EntryHashes(a);
    assert ContinuesAt(h, a, [e], 0) <==> e.logRoot == Some(Str(LogRoot(h, EntryHashes(a))));
  }

  /** Options that expect no log root, active root or hashes. */
  predicate OnlyStarts(o: ChainOptions)
  {
    o.expectedLogRoot.None? && o.expectedActiveRoot.None? && o.expectedHashes.None?
  }

  function Bare(o: ChainOptions): (r: ChainOptions)
    ensures OnlyStarts(r)
  {
    o.(expectedLogRoot := None, expectedActiveRoot := None, expectedHashes := None)
  }

  /** What a caller expects of the log as a whole. */
  ghost predicate MeetsExpectations(h: HashFn, o: ChainOptions, entries: seq<Entry>)
  {
    && RootExpected(o.expectedLogRoot, Some(Str(LogRoot(h, EntryHashes(entries)))))
    && RootExpected(o.expectedActiveRoot, ActiveRoot(h, entries))
    && (o.expectedHashes.Some? ==> o.expectedHashes.value == EntryHashes(entries))
  }

  /** The options that start where a non-empty chain ends. */
  function After(o: ChainOptions, a: seq<Entry>): ChainOptions
    requires |a| > 0
  {
    o.(startSequence := o.startSequence + |a|, previous := Some(a[|a| - 1].hash))
  }

  lemma EntriesSplit(h: HashFn, o: ChainOptions, a: seq<Entry>, b: seq<Entry>)
    requires |a| > 0
    ensures Accepted(h, o, a + b) <==>
      (Accepted(h, Bare(o), a) && Accepted(h, After(Bare(o), a).(embedded := false), b)
       && (o.embedded ==> RootsContinue(h, a, b)) && MeetsExpectations(h, o, a + b))
  {
    hide LogRoot, EntryHashes, RootsEmbedded, Chained, ActiveRoot, RootsContinue;
    EmbeddedSplit(h, a, b);
    if FirstPrevious(o).Some? { ChainedSplit(o.startSequence, FirstPrevious(o).value, a, b); }
  }

  /** A log A + B, however its receipts are read, is accepted exactly when A is accepted, B is accepted from the end
      of A with no check of embedded roots, those of B, if they are checked, are the roots of the whole log so far,
      and the log as a whole is what the caller expects. */
  lemma AcceptedSplit<T>(h: HashFn, o: ChainOptions, read: T -> Entry, a: seq<T>, b: seq<T>)
    requires |a| > 0
    ensures var x, y := Map(read, a), Map(read, b);
      Accepted(h, o, Map(read, a + b)) <==>
        (Accepted(h, Bare(o), x) && Accepted(h, After(Bare(o), x).(embedded := false), y)
         && (o.embedded ==> RootsContinue(h, x, y)) && MeetsExpectations(h, o, Map(read, a + b)))
  {
    assert Map(read, a + b) == Map(read, a) + Map(read, b);
    EntriesSplit(h, o, Map(read, a), Map(read, b));
  }

  /** With embedded roots checked, a log does not split at its end: the verifier starts from the empty set, so the
      second part of an accepted log is refused by itself unless it is empty, whatever options come with it. */
  lemma EmbeddedPartRefused(h: HashFn, o: ChainOptions, a: seq<Entry>, b: seq<Entry>)
    requires o.embedded && |a| > 0 && Accepted(h, o, a + b)
    requires CollisionFree(h, LogTexts(h, EntryHashes(a)) + {EMPTY_TEXT})
    ensures Accepted(h, After(Bare(o), a), b) <==> |b| == 0
    ensures |b| > 0 ==> forall p: ChainOptions :: p.embedded ==> !Accepted(h, p, b)
  {
    hide LogRoot, EntryHashes, ActiveRoot, LogTexts;
    EntriesSplit(h, o, a, b);
    if |b| > 0 {
      LogRootApart(h, a);
      assert ContinuesAt(h, a, b, 0);
      assert EntryHashes(a) + EntryHashes(b)[..0] == EntryHashes(a);
      forall p: ChainOptions | p.embedded ensures !Accepted(h, p, b) {
        FirstRoot(h, b);
      }
    }
  }

  /** The first receipt of a log with embedded roots carries the root of the empty set. */
  lemma FirstRoot(h: HashFn, b: seq<Entry>)
    requires |b| > 0
    ensures RootsEmbedded(h, b) ==> b[0].logRoot == Some(Str(EmptyRoot(h)))
  {
    assert EntryHashes(b)[..0] == [];
    assert RootsEmbedded(h, b) ==> EmbeddedAt(h, b, 0);
    assert Sorted(AddAll([])) == [];
  }

  lemma LogRootApart(h: HashFn, a: seq<Entry>)
    requires |a| > 0 && CollisionFree(h, LogTexts(h, EntryHashes(a)) + {EMPTY_TEXT})
    ensures LogRoot(h, EntryHashes(a)) != EmptyRoot(h)
  {
    var hashes := EntryHashes(a);
    AddAllMembers(hashes);
    SortedValues(AddAll(hashes));
    assert hashes[0] in Sorted(AddAll(hashes));
    EmptyRootApart(h, Sorted(AddAll(hashes)));
  }

  lemma EntriesGrow(h: HashFn, o: ChainOptions, entries: seq<Entry>, e: Entry)
    requires OnlyStarts(o) && Accepted(h, o, entries) && e.logRoot == Some(Str(LogRoot(h, EntryHashes(entries))))
    ensures Accepted(h, o, entries + [e]) <==>
      StepOk(e, o.startSequence + |entries|, PreviousAt(FirstPrevious(o).value, entries, |entries|))
  {
    ChainedSnoc(o.startSequence, FirstPrevious(o).value, entries, e);
    EmbeddedSnoc(h, entries, e);
  }

  /** An entry that carries the root of all hashes so far keeps an accepted log accepted exactly when it verifies
      and carries the next number and the last hash. */
  lemma AcceptedGrows<T>(h: HashFn, o: ChainOptions, read: T -> Entry, receipts: seq<T>, receipt: T)
    requires OnlyStarts(o) && Accepted(h, o, Map(read, receipts))
    requires read(receipt).logRoot == Some(Str(LogRoot(h, EntryHashes(Map(read, receipts)))))
    ensures var entries := Map(read, receipts);
      Accepted(h, o, Map(read, receipts + [receipt])) <==>
        StepOk(read(receipt), o.startSequence + |entries|, PreviousAt(FirstPrevious(o).value, entries, |entries|))
  {
    hide Accepted, StepOk, LogRoot, EntryHashes;
    assert Map(read, receipts + [receipt]) == Map(read, receipts) + [read(receipt)];
    EntriesGrow(h, o, Map(read, receipts), read(receipt));
  }

  /** Two accepted chains from one start with the same last hash or the same log root have the same hashes. */
  lemma AcceptedBound(h: HashFn, o: ChainOptions, p: ChainOptions, a: seq<Entry>, b: seq<Entry>)
    requires Accepted(h, o, a) && Accepted(h, p, b) && HashesDetermine(a, b)
    requires FirstPrevious(o) == FirstPrevious(p) && o.startSequence == p.startSequence
    requires CollisionFree(h, LogTexts(h, EntryHashes(a)) + LogTexts(h, EntryHashes(b)))
    requires
      || (|a| > 0 && |b| > 0 && a[|a| - 1].hash == b[|b| - 1].hash)
      || LogRoot(h, EntryHashes(a)) == LogRoot(h, EntryHashes(b))
    ensures EntryHashes(a) == EntryHashes(b)
  {
    if LogRoot(h, EntryHashes(a)) == LogRoot(h, EntryHashes(b)) {
      BoundByLogRoot(h, o.startSequence, FirstPrevious(o).value, a, b);
    } else {
      BoundByLastHash(o.startSequence, FirstPrevious(o).value, a, b);
    }
  }
}
