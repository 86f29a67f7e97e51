# Enigma: a verified model

This project models the parts of Enigma that everything else rests on, in Dafny, and proves what they promise.

- **Authenticated state and receipt log** (`packages/core`): the canonical JSON printer on values (`CanonicalJson`,
  with a reader in `JsonReader` and `JsonShortest`) and on mutable object graphs (`ObjectGraph`), the bytes that are
  hashed (`Utf8`), the Merkle tree and the mutable `MerkleSet` with membership and non-membership proofs (`Merkle`,
  `MerkleShape`, `MerkleTopDown`, `MerkleSets`, `ByteRoots`), signed receipts (`Receipts`, `ReceiptFields`) and the
  receipt-chain verifier (`HashChain`, `ReceiptChain`).
- **Visual context carrier** (`packages/optimizer`): the text codec (`VisualText`), the greedy line wrapper
  (`Wrapping`, `WrapText`), the pixel renderer (`Raster`), CRC and PNG framing (`Crc`, `Png`), layout and pagination
  (`Carrier`), what the pictures tell (`Legible`), and the token estimator (`TokenEstimate`).
- **Capsules** (`packages/importers` with `packages/mesh`): candidates and vault writes (`Candidates`), export,
  manifests and import (`Capsule`), and what a capsule commits to and says (`CapsuleRoots`, `CapsuleContents`).
- **Consent and recall** (`packages/controller`): grants (`Consent`) and the recall decision (`Recall`).
- **Connector configs** (`packages/connectors`): the planner (`Connectors`) and the detector (`Detector`).

`dafny verify dfyconfig.toml` checks the whole project.

## How to read it

- **Texts** are sequences of UTF-16 code units, compared unit by unit, as JavaScript does.
- **Objects** are lists of fields in insertion order. `WellFormed` says that the names of each object differ, which
  holds for every JavaScript object; "equal up to key order" is `JsonEqual`.
- **Hashing** is an arbitrary function from texts to 64 hexadecimal digits. No hash into a finite type is injective,
  so a soundness result never assumes that. It assumes `CollisionFree` for the finite set of texts that the
  computation at hand really hashes: if the conclusion fails, two texts of that set collide. `Utf8` ties this to
  hashes of bytes.
- **Signatures and compression** have one law each: a signature made with a private key verifies with the matching
  public key; `inflate` undoes `deflate` (and `deflate` at most doubles its input, up to a header).
- **Outputs are pinned from outside.** Printers and encoders are read back by readers that know nothing of them and
  follow the standards: RFC 8259 for JSON, RFC 3629 for UTF-8, the W3C PNG Specification. The Merkle root is compared
  with the recursion of RFC 6962, the CRC with its published check value. What a created record says, and what an
  accepted one guarantees, is stated under the literal names of its fields.
- **Loops and mutation** are methods and classes, proved equal to a specification function; the laws are lemmas about
  these functions. `hide` statements only keep definitions out of proofs that do not need them.

## Where a promise needs a condition

Each of these has a lemma that states the condition.

- A lone surrogate is hashed as U+FFFD. Set roots are equal exactly when the sorted leaves agree after this
  replacement, and a membership proof proves a member with the same replacement (`ByteRoots.ByteRootExactly`,
  `ByteRoots.ByteMembershipSound`, `ByteRoots.LoneSurrogateLeaf`). Roots therefore commit to leaves without lone
  surrogates (`ByteRoots.ByteRootCommits`). Canonical JSON is not affected: it escapes lone surrogates
  (`Utf8.CanonicalBytes`).
- The non-membership checker compares the index and size that neighbour proofs claim, and never derives them from the
  sibling path. So a record can name any other member as the only neighbour, at position 0 of 1: every member of every
  set of two or more values has a record that verifies as its absence, for every hash. Verified records prove absence
  exactly for sets of at most one value (`MerkleSets.MisplacedRecordVerifies`, `RecordsProveAbsenceExactly`). What a
  caller can check besides is that the neighbour paths have the shapes of the positions that they claim: then the value
  is absent, whatever the size of the set, and built proofs always have these shapes
  (`MerkleSets.NonMembershipSoundByShape`, `HonestProofsMatch`).
- Over bytes the shapes alone are not enough, since a neighbour may be claimed under another text with the same bytes.
  Verified records with matching shapes prove absence exactly for sets in which no leaf holds a lone surrogate or
  U+FFFD; U+FFFD itself can be shown absent from the set of U+FFFD (`ByteRoots.MatchingRecordsExactly`,
  `ByteRoots.ReplacementRecord`).
- Vault writes are told apart by one joined text whose parts may hold the separator. The hash in it fixes the receipt
  and the receipt the address, so no write is lost unless two receipts collide (`CapsuleRoots.SameKeySameWrite`), and
  the roots of a capsule cover every verified write of its candidates (`CapsuleRoots.ExportedRoots`).
- A character without a glyph is drawn as the default one, and a blank one cannot be seen behind the end of a row. Up to
  this, pages that look the same hold the same characters, for fonts whose glyphs all differ
  (`Raster.SamePictureSameCharacter`, `Legible.PicturesTellCharacters`).
- A log splits into parts that are accepted one after the other, but not with `verifyEmbeddedReceiptLogRoot`: the check
  of embedded roots starts from the empty set, whatever `previousReceiptLogRoot` says, so every non-empty later part is
  refused. What the embedded roots of a later part must be instead is stated (`HashChain.AcceptedSplit`,
  `HashChain.EmbeddedPartRefused`).
- `createReceipt` keeps the `alg` of a signer record that the caller passes, and `verifyReceipt` demands `Ed25519`. A
  created receipt verifies exactly when the record names no algorithm, or that one (`Receipts.CreatedVerifies`,
  `Receipts.OtherAlgRefused`, `ReceiptChain.ChainGrows`).
- Disconnecting restores a config exactly when its container existed and lacked the entry. A container that
  connecting created stays behind, empty, and an entry that was replaced is gone (`Connectors.DisconnectRestores`).
- If connecting changes nothing, the detector reports `already_configured`. The converse holds exactly for entries in
  the planner's own form. The detector does not see further keys, takes a missing `args` for an empty list, compares
  arguments and environment values after turning them into texts, and skips null environment values; connecting
  changes all of these (`Detector.AgreeExactly`, `Detector.DetectorIgnoresExtraKeys`, `Detector.DetectorMissesArgs`).
- `createConsentGrant` accepts an empty list of zones, and `verifyConsentGrant` never does; and the instant
  `9999-12-31T24:00:00Z` is accepted but written back with a six-digit year, which the verifier does not read
  (`Consent.CreatedGrantHolds`). Such grants are created all the same, and hold for no request at any time
  (`Consent.NoZoneNeverHolds`, `Consent.LimitTimeNeverHolds`).
- A capsule whose reports hold a candidate with an array or object as `candidate_id` is exported, and after a trip
  through JSON text it is refused: such ids are compared by identity, so the candidates are collected twice
  (`Candidates.CollectAgain`, `Capsule.ExportImport`, `Capsule.StructuredIdRefused`).

## Model

| member | source | states |
|---|---|---|
| `JsText.LessTotal` | packages/core/src/index.js:526-528 | The order of `sort()` and of `<` on strings, unit by unit, is total. |
| `JsText.LessTransitive` | packages/core/src/index.js:526-528 | That order is transitive; with irreflexivity it is a strict total order. |
| `Sorting.SortSorted` | packages/core/src/index.js:526-528 | Sorting keys that are all different gives a strictly ascending list of the same members. |
| `Sorting.StrictlySortedUnique` | packages/core/src/index.js:197-203 | Two strictly ascending lists with the same members are the same list: a set of keys has one printed order. |
| `Json.JsonEqualIsNormEqual` | packages/connectors/src/index.js:111-131 | `jsonEqual` decides equality up to the order of keys, both ways, on every JSON value. |
| `CanonicalJson.DecimalRead` | packages/core/src/index.js:162-164 | A reader of JSON integers gets every printed integer back, before anything that is not a digit. |
| `CanonicalJson.QuoteRead` | packages/core/src/index.js:160-161 | A reader of JSON strings gets every quoted string back, escapes and lone surrogates included. |
| `CanonicalJson.PrintRead` | packages/core/src/index.js:156-203 | A reader of JSON, written from the grammar of RFC 8259, gets every printed value back and leaves what follows; so printed values are uniquely readable. |
| `CanonicalJson.CanonicalRead` | packages/core/src/index.js:152-207 | Reading the canonical text of a value gives a value that is equal up to key order, with the keys of every object strictly ascending. |
| `JsonShortest.PrintShortest` | packages/core/src/index.js:156-203 | No JSON text that reads as a value is shorter than the printed one: nothing is escaped without need, and short escapes are used. |
| `CanonicalJson.ToTextMeaning` | packages/connectors/src/index.js:271-278 | `String(value)`: texts stand for themselves, other scalars for their JSON text, arrays for their items with commas, null items for nothing. |
| `CanonicalJson.CanonicalInjective` | packages/core/src/index.js:152-207 | Two values have the same canonical text exactly when they are equal up to key order. |
| `ObjectGraph.AcceptsExactly` | packages/core/src/index.js:156-207 | On every finite object graph the printer ends, and it throws exactly when a cycle or an unsupported value is reachable. |
| `ObjectGraph.UnfoldsUnique` | packages/core/src/index.js:156-207 | An object graph stands for at most one JSON value, with shared objects copied. |
| `ObjectGraph.UnfoldingPrinted` | packages/core/src/index.js:156-207 | A graph that unfolds to a value is accepted and prints as the canonical text of that value. |
| `ObjectGraph.SharedAsCopied` | packages/core/src/index.js:178-206 | What is accepted prints exactly as if every shared object were copied, because objects leave the path again. |
| `ObjectGraph.Canonicalizer.constructor` | packages/core/src/index.js:152-154 | The walk starts with no object on its path. |
| `ObjectGraph.Canonicalizer.CanonicalizeValue` | packages/core/src/index.js:156-207 | The recursion with the mutable `seen` set computes the specified outcome and leaves `seen` as it found it. |
| `ObjectGraph.Canonicalizer.CanonicalizeAll` | packages/core/src/index.js:181-189 | The loop over children stops at the first failure and restores `seen`. |
| `Utf8.Utf8Read` | packages/core/src/index.js:209-211 | A reader of UTF-8, written from RFC 3629, gets back the text with its lone surrogates replaced by U+FFFD. |
| `Utf8.SameBytes` | packages/core/src/index.js:209-211 | Two texts give the same bytes to hash exactly when they agree after replacing lone surrogates by U+FFFD. |
| `Utf8.Utf8Injective` | packages/core/src/index.js:209-211 | UTF-8 keeps texts without lone surrogates apart. |
| `Utf8.PrintWellFormed` | packages/core/src/index.js:152-207 | A canonical text never contains a lone surrogate. |
| `Utf8.CanonicalBytes` | packages/core/src/index.js:152-211 | The hashed bytes of two canonical texts are equal exactly when the values are, up to key order. |
| `Utf8.WellFormedCollisionFree` | packages/core/src/index.js:209-211 | Freedom from collisions of bytes gives the freedom from collisions of texts that the other results assume. |
| `ByteRoots.ByteRootExactly` | packages/core/src/index.js:446-448 | Set roots over bytes are equal exactly when the sorted leaves agree after replacing lone surrogates, up to a collision of bytes. |
| `ByteRoots.ByteRootCommits` | packages/core/src/index.js:446-448 | For leaves without lone surrogates, set roots over bytes are therefore equal exactly when the sets are. |
| `ByteRoots.LoneSurrogateLeaf` | packages/core/src/index.js:1146-1148 | The set of one lone surrogate has the root of the set of U+FFFD, for every hash. |
| `ByteRoots.ByteMembershipSound` | packages/core/src/index.js:487-501 | A verified membership proof over bytes proves that some member has the same text after replacing lone surrogates, up to a collision of bytes. |
| `ByteRoots.ByteMembershipComplete` | packages/core/src/index.js:454-460 | The proof of a member verifies for every value with the same replacement. |
| `ByteRoots.ByteNonMembershipSound` | packages/core/src/index.js:503-524 | Over bytes, non-membership holds for leaves and claimed neighbours without lone surrogates. |
| `ByteRoots.MatchingRecordsExactly` | packages/core/src/index.js:503-524 | Over bytes, all verified records of matching paths prove absence if and only if no leaf holds a lone surrogate or U+FFFD, up to a collision. |
| `ByteRoots.ReplacementRecord` | packages/core/src/index.js:503-524 | For every hash, a record with a matching path verifies that U+FFFD is absent from the set of U+FFFD. |
| `Hashing.RootExactly` | packages/core/src/index.js:1014-1019 | A root is `sha256:` and 64 lower-case hexadecimal digits. |
| `Hashing.NormalizeRoot` | packages/core/src/index.js:1014-1019 | A root stays, a bare digest gets its prefix, anything else throws; whatever is returned is a well-formed root. |
| `Merkle.DomainSeparation` | packages/core/src/index.js:1146-1152 | Leaf, node and empty texts never coincide. |
| `Merkle.ComputeNextLevel` | packages/core/src/index.js:1138-1144 | The pairing loop computes the next level, with an odd last node promoted as it is. |
| `Merkle.ComputeMerkleRoot` | packages/core/src/index.js:1131-1136 | The level loop computes the root, the empty one included. |
| `Merkle.TreeOfCorrect` | packages/core/src/index.js:1131-1144 | The level-by-level root is the digest of one tree whose leaves are the values in order, at every size. |
| `Merkle.RootCommits` | packages/core/src/index.js:1131-1152 | Equal roots mean equal lists of values, unless two of the texts hashed for them collide. |
| `MerkleTopDown.RootTopDown` | packages/core/src/index.js:1131-1152 | The level-by-level root is the one computed from the top by splitting at the largest power of two below the size, with the hashed texts spelled out. |
| `Merkle.BuildMembershipProof` | packages/core/src/index.js:1154-1168 | The proof loop collects exactly the specified siblings, skipping levels where the node is promoted. |
| `Merkle.VerifyMembership` | packages/core/src/index.js:487-501 | The checking loop accepts exactly the proofs whose path climbs to both the stated and the expected root. |
| `Merkle.VerifiedProof` | packages/core/src/index.js:487-496 | A verified proof claims a position below its size and has only left and right siblings that are digests. |
| `Merkle.MembershipComplete` | packages/core/src/index.js:454-460 | Every built membership proof verifies, for every set, index and promotion pattern. |
| `Merkle.MembershipSound` | packages/core/src/index.js:487-501 | Any sibling list that verifies against the root of a set ends at a member of the set, up to a collision. |
| `Merkle.SiblingsFromShape` | packages/core/src/index.js:1154-1168 | An honest path turns left and right as its index and size dictate. |
| `Merkle.PositionBinding` | packages/core/src/index.js:487-501 | A verifying path with the shape of its claimed index and size ends at the value of that very position, up to a collision. |
| `Merkle.ClimbDescends` | packages/core/src/index.js:487-501 | A path that verifies against a tree of any size leads, side by side, to the leaf of its value, up to a collision. |
| `MerkleShape.AdjacentShapes` | packages/core/src/index.js:1154-1168 | The paths of neighbouring positions part once: the first ends rightmost on the left, the second leftmost on the right. |
| `MerkleShape.NeighboursByShape` | packages/core/src/index.js:487-501 | Verified paths shaped like neighbours of any claimed size end at neighbouring values of the set, whatever its true size. |
| `MerkleShape.FirstByShape` | packages/core/src/index.js:487-501 | A verified path shaped like a first position ends at the first value. |
| `MerkleShape.LastByShape` | packages/core/src/index.js:487-501 | A verified path shaped like a last position ends at the last value. |
| `MerkleShape.ProofTexts` | packages/core/src/index.js:1154-1168 | Checking a built proof hashes only texts that the root hashes. |
| `MerkleSets.MerkleSet.constructor` | packages/core/src/index.js:428-431 | A new set holds the normalised initial values, each once. |
| `MerkleSets.MerkleSet.Insert` | packages/core/src/index.js:433-436 | Inserting adds the normalised value and nothing else, and changes nothing for a member. |
| `MerkleSets.MerkleSet.Delete` | packages/core/src/index.js:438-440 | Deleting removes the normalised value and nothing else, and says whether it was there. |
| `MerkleSets.MerkleSet.Root` | packages/core/src/index.js:446-448 | The root is the one of the sorted members. |
| `MerkleSets.MerkleSet.ProveMembership` | packages/core/src/index.js:454-460 | Throws exactly for values that are no members; otherwise the proof verifies against the root of the set. |
| `MerkleSets.MerkleSet.ProveNonMembership` | packages/core/src/index.js:466-481 | Throws exactly for members; otherwise the proof verifies against the root of the set. |
| `MerkleSets.LowerBound` | packages/core/src/index.js:1170-1179 | The bisection finds how many sorted values come before the given one. |
| `MerkleSets.RunMembers` | packages/core/src/index.js:433-440 | After any history of insertions and deletions the members are the values whose last operation inserted them. |
| `MerkleSets.SetRootCanonical` | packages/core/src/index.js:446-448 | Sets with the same members have the same root, and sets with the same root the same members up to a collision. |
| `MerkleSets.HistoryIndependence` | packages/core/src/index.js:427-448 | Two histories give the same root exactly when they leave the same members, up to a collision. |
| `MerkleSets.RecordExactly` | packages/core/src/index.js:503-524 | What the checker asks of a record, neighbour by neighbour, with the claimed positions. |
| `MerkleSets.NonMembershipComplete` | packages/core/src/index.js:466-481 | For every set and absent value the built proof verifies: empty set, before the first, after the last, in between. |
| `MerkleSets.NonMembershipSound` | packages/core/src/index.js:503-524 | If a proof verifies and its neighbours carry their true index and size, the value is absent, up to a collision. |
| `MerkleSets.NonMembershipSoundByShape` | packages/core/src/index.js:503-524 | From the root alone: if the neighbour paths have the shapes of the index and size they claim, the value is absent, whatever the size of the set. |
| `MerkleSets.MisplacedRecordVerifies` | packages/core/src/index.js:503-524 | For every hash and every member of every set of two or more values, a record verifies that the member is absent, and it hashes no text beyond those of the root. |
| `MerkleSets.RecordsProveAbsenceExactly` | packages/core/src/index.js:503-524 | All verified records prove absence if and only if the set has at most one value, up to a collision. |
| `MerkleSets.HonestProofsMatch` | packages/core/src/index.js:466-481 | Built proofs have that shape, so a checker that tests it rejects none of them. |
| `HashChain.EmbeddedMismatches` | packages/core/src/index.js:388-402 | The second loop, with one growing set, lists in order exactly the receipts whose embedded root is not that of all earlier hashes. |
| `HashChain.ComputeLogRoot` | packages/core/src/index.js:382-383 | The log root is the one of the set of all hashes. |
| `HashChain.MatchesRoot` | packages/core/src/index.js:383-386 | A given root is compared with the computed one, and a malformed one throws. |
| `HashChain.HashMismatches` | packages/core/src/index.js:410-418 | No mismatch is counted exactly when the expected hashes are the computed ones. |
| `HashChain.BoundByLastHash` | packages/core/src/index.js:362-380 | Chains from one start with the same last hash have the same hashes, when hashes fix the links. |
| `HashChain.BoundByLogRoot` | packages/core/src/index.js:369-382 | Chains from one start with the same log root have the same hashes in the same order, though the root is of a set. |
| `HashChain.ChainedSplit` | packages/core/src/index.js:357-380 | A chain in two parts is chained exactly when the first is and the second is from where it ends. |
| `HashChain.EmbeddedSplit` | packages/core/src/index.js:388-402 | The embedded roots of A + B are right exactly when those of A are and those of B are the roots of the whole log so far. |
| `HashChain.AcceptedSplit` | packages/core/src/index.js:350-425 | For all options: A + B is accepted exactly when A is, B is from the end of A without embedded roots, embedded roots of B, if checked, continue those of A, and the whole log is what the caller expects. |
| `HashChain.EmbeddedPartRefused` | packages/core/src/index.js:388-402 | With embedded roots checked, the second part of an accepted log is refused by itself unless it is empty, whatever start root is given, up to a collision. |
| `HashChain.AcceptedGrows` | packages/core/src/index.js:350-425 | An entry that carries the root of all hashes keeps an accepted log accepted exactly when it verifies with the next number and the last hash. |
| `HashChain.AcceptedBound` | packages/core/src/index.js:350-387 | Accepted chains from one start with the same last hash or the same log root have the same hashes. |
| `Receipts.ValidateShape` | packages/core/src/index.js:1106-1116 | No error exactly for records with known field names and known signature fields only. |
| `Receipts.VerifyReceipt` | packages/core/src/index.js:304-348 | No error exactly for receipts that meet every stated condition, id and signature included. |
| `Receipts.TruthyExactly` | packages/core/src/index.js:315-317 | Which values pass where any truthy one does. |
| `Receipts.OrderedProperty` | packages/core/src/index.js:1074-1099 | Ordering the fields keeps every field with its value. |
| `Receipts.SealedId` | packages/core/src/index.js:1118-1121 | The id of a created receipt is the one derived from it again, although the id is part of the receipt. |
| `Receipts.SealedVerifies` | packages/core/src/index.js:295-302 | A sealed record passes the shape, id and signature checks under the matching key. |
| `Receipts.CreatedHasBody` | packages/core/src/index.js:275-293 | A created receipt carries every field of its body and no other, but for id and signature. |
| `ReceiptFields.CreatedExactly` | packages/core/src/index.js:261-273 | `createReceipt` throws exactly for a negative number, an empty required text, a malformed root or hash, a missing previous hash after the first receipt, or a signer without key id. |
| `ReceiptFields.CreatedRoots` | packages/core/src/index.js:265-270 | The event hash is the given one, normalised, or that of the event without its secrets; the two roots are the given ones, normalised, or the empty root; the link is GENESIS or the given hash. |
| `ReceiptFields.CreatedFields` | packages/core/src/index.js:275-293 | Schema, tenant, subject, operation, timestamp and number are those of the arguments. |
| `ReceiptFields.CreatedOptional` | packages/core/src/index.js:289-293 | The five optional fields are there exactly when they are given, with the given values. |
| `ReceiptFields.CreatedSigner` | packages/core/src/index.js:1030-1040 | The signer is the record of the caller, or the key id of the caller, or one derived from the public key. |
| `ReceiptFields.WithoutSecretsGet` | packages/core/src/index.js:1061-1067 | The hashed event lacks exactly `privateKey`, `signer` and `signature`, and reads as the event otherwise. |
| `ReceiptFields.CreatedSealed` | packages/core/src/index.js:295-301 | The id is the second field and derived from the signed fields with an empty id; the signature is the last field and covers all others. |
| `ReceiptFields.VerifiedId` | packages/core/src/index.js:325-330 | The id of every verified receipt is derived from its other fields but the signature, whatever their order. |
| `ReceiptFields.VerifiedSignature` | packages/core/src/index.js:332-343 | The signature of every verified receipt covers all its other fields under the key of the options, or the one they give for the signer. |
| `ReceiptFields.VerifiedSays` | packages/core/src/index.js:304-323 | What the other fields of every verified receipt are. |
| `ReceiptFields.VerifiedKnown` | packages/core/src/index.js:1106-1118 | A verified receipt has only the eighteen known fields. |
| `Receipts.CreatedVerifies` | packages/core/src/index.js:261-348 | Under the matching key `verifyReceipt` accepts what `createReceipt` returns exactly when the signer record of the caller names no algorithm, or `Ed25519`. |
| `Receipts.OtherAlgRefused` | packages/core/src/index.js:1030-1033 | Concrete arguments with another algorithm: the receipt is created, and refused under all options. |
| `ReceiptChain.CheckReceipt` | packages/core/src/index.js:363-375 | One round of the first loop complains exactly when the receipt, its number or its link is wrong. |
| `ReceiptChain.CheckLinks` | packages/core/src/index.js:361-380 | The first loop has no error exactly for a chained list, and collects its hashes. |
| `ReceiptChain.CheckRoots` | packages/core/src/index.js:382-424 | What follows the loop: errors exactly when a root or hash differs, a throw exactly for malformed roots. |
| `ReceiptChain.VerifyReceiptChain` | packages/core/src/index.js:351-424 | Accepts exactly the receipts that are linked, numbered, rooted and hashed as the options ask; reports their hashes, the log root and the active root of the last one; throws exactly for malformed roots or a null last receipt. |
| `ReceiptChain.AcceptedReceipts` | packages/core/src/index.js:351-420 | Acceptance in terms of the receipts and their fields alone. |
| `ReceiptChain.ReportsBindReceipts` | packages/core/src/index.js:350-425 | Two accepted calls from one start that report the same last hash or log root were given the same receipts, up to key order and collisions. |
| `ReceiptChain.ChainGrows` | packages/core/src/index.js:261-302 | Appending a created receipt that continues an accepted log keeps it accepted, embedded roots included, exactly when its signer record names no other algorithm. |
| `VisualText.EncodeVisualContextText` | packages/optimizer/src/visual-context.js:241-255 | The encoding loop concatenates the encodings of the characters. |
| `VisualText.EncodedCharExactly` | packages/optimizer/src/visual-context.js:245-253 | A character is kept exactly when it is a newline or has a glyph and is neither a control character nor the backslash; otherwise its escape is spelled out. |
| `VisualText.UpperHexDigits` | packages/optimizer/src/visual-context.js:252-252 | The hexadecimal digits of an escape are upper case, without leading zeros. |
| `VisualText.DecodeVisualContextText` | packages/optimizer/src/visual-context.js:257-290 | The decoding loop computes the specified decoding and throws on exactly the invalid escapes. |
| `VisualText.DecodedTokens` | packages/optimizer/src/visual-context.js:257-290 | A text decodes only if it is made of tokens: other units than the backslash, three short escapes, and escapes of code points in upper-case hexadecimal. |
| `VisualText.TokensDecode` | packages/optimizer/src/visual-context.js:257-290 | Every text made of tokens decodes, to what they stand for. |
| `VisualText.CharDecodes` | packages/optimizer/src/visual-context.js:246-286 | The encoding of one character decodes to it, whatever follows. |
| `VisualText.TextRoundTrip` | packages/optimizer/src/visual-context.js:241-290 | Decoding undoes encoding for every text, lone surrogates included, and every set of glyphs. |
| `Wrapping.EncodedAtoms` | packages/optimizer/src/visual-context.js:292-315 | The atom loop computes the specified atoms and throws for an escape that is not closed. |
| `Wrapping.WrapAtoms` | packages/optimizer/src/visual-context.js:329-341 | The inner loop produces exactly the greedy rows. |
| `Wrapping.GroupsFlatten` | packages/optimizer/src/visual-context.js:331-341 | The rows hold all atoms in order: no atom is lost, repeated or split. |
| `Wrapping.GroupsFit` | packages/optimizer/src/visual-context.js:331-341 | When every atom fits the columns, every greedy row does. |
| `Wrapping.GreedyStaysAhead` | packages/optimizer/src/visual-context.js:331-341 | Against any wrapping the greedy one has no more rows, and with as many rows no fuller last row. |
| `Wrapping.GreedyOptimal` | packages/optimizer/src/visual-context.js:317-348 | No wrapping of a line that fits the columns has fewer rows than the greedy one. |
| `WrapText.WrapEncodedText` | packages/optimizer/src/visual-context.js:317-348 | The outer loop computes the rows of all lines with their offsets. |
| `WrapText.EncodedAtomsTile` | packages/optimizer/src/visual-context.js:292-315 | The atoms of an encoded line are the encodings of its characters, end to end, each of one to ten cells. |
| `WrapText.SplitEncoded` | packages/optimizer/src/visual-context.js:318-318 | An encoded text splits at newlines into the encodings of the source lines. |
| `WrapText.AtomsCountChars` | packages/optimizer/src/visual-context.js:292-316 | Every atom takes exactly as many cells as it has characters. |
| `WrapText.WrapLossless` | packages/optimizer/src/visual-context.js:317-348 | Every row is its slice of the encoded text, rows are adjacent or one newline apart, each decodes alone, rejoining gives the source, and rows fit ten columns or more. |
| `WrapText.WrapOptimal` | packages/optimizer/src/visual-context.js:317-348 | Of all layouts that keep newlines, break between atoms and fit, the wrapper has the fewest rows. |
| `Raster.SetPixel` | packages/optimizer/src/visual-context.js:350-356 | Exactly one pixel changes, and none outside the image. |
| `Raster.DrawLine` | packages/optimizer/src/visual-context.js:358-367 | Exactly the inked positions of the line take the ink; every other pixel keeps its colour. |
| `Raster.FillBackground` | packages/optimizer/src/visual-context.js:418-423 | Every pixel is background. |
| `Raster.DrawPage` | packages/optimizer/src/visual-context.js:417-433 | The colour of every pixel is the one that its row, line and cell dictate. |
| `Raster.RenderPage` | packages/optimizer/src/visual-context.js:417-434 | A reader of the file finds exactly these colours. |
| `Raster.MarginsBlank` | packages/optimizer/src/visual-context.js:424-433 | Outside the margins a page that fits its grid is blank. |
| `Raster.NeverClips` | packages/optimizer/src/visual-context.js:350-367 | Every pixel of every cell of such a page is inside the margins, so nothing is clipped. |
| `Raster.InkExactly` | packages/optimizer/src/visual-context.js:140-150 | The ink of every row under both palettes: three header rows, one ink or six in turn. |
| `Raster.CellShowsGlyph` | packages/optimizer/src/visual-context.js:358-368 | In every cell the inked pixels are exactly those of the glyph of its code point, or of the default glyph where the font has none, in the ink of the line. |
| `Raster.SamePictureSameGlyphs` | packages/optimizer/src/visual-context.js:417-434 | Pages on one grid that look the same show the same glyph shapes in every cell they share. |
| `Raster.SamePictureSameCharacter` | packages/optimizer/src/visual-context.js:358-368 | With a legible font, pages that look the same have the same character in every cell they share, or one that is drawn as the default character. |
| `Raster.SamePictureBlank` | packages/optimizer/src/visual-context.js:358-368 | A cell that only one of two such pages has shows nothing. |
| `Crc.TableStep` | packages/optimizer/src/visual-context.js:380-383 | One step by the table is eight steps by single bits. |
| `Crc.HalvesLinear` | packages/optimizer/src/visual-context.js:369-378 | The table steps are linear over exclusive or, which is why a table suffices. |
| `Crc.Checksums.constructor` | packages/optimizer/src/visual-context.js:369-370 | The cache starts empty. |
| `Crc.Checksums.Table` | packages/optimizer/src/visual-context.js:369-378 | The filled table has the eight-step value at every index, and later calls return the same table. |
| `Crc.Checksums.Crc32` | packages/optimizer/src/visual-context.js:380-385 | The table-driven loop equals the bit-at-a-time check value for every byte string. |
| `Crc.DetectsChangedByte` | packages/optimizer/src/visual-context.js:380-385 | Byte strings that differ in one byte have different check values. |
| `Crc.CheckValue` | packages/optimizer/src/visual-context.js:370-386 | The check value of "123456789" is 0xcbf43926, as published for CRC-32. |
| `Png.PngChunk` | packages/optimizer/src/visual-context.js:387-395 | The buffer holds length, type, data and check value; it throws exactly for lengths over 32 bits. |
| `Png.ReadWrittenChunk` | packages/optimizer/src/visual-context.js:387-395 | A reader of the layout recovers type, data and the rest behind the chunk. |
| `Png.ReadOnlyWritten` | packages/optimizer/src/visual-context.js:387-395 | The reader accepts nothing but what the writer writes. |
| `Png.ChangedByteRefused` | packages/optimizer/src/visual-context.js:387-395 | A chunk with one byte of its type or data changed is refused. |
| `Png.FillScanlines` | packages/optimizer/src/visual-context.js:407-409 | The row loop puts every row of pixels behind a zero filter byte. |
| `Png.UnfilterScanlines` | packages/optimizer/src/visual-context.js:407-409 | Taking the filter bytes off gives the pixels back. |
| `Png.EncodePng` | packages/optimizer/src/visual-context.js:397-415 | A reader of the file finds the width, the height and the pixels; images of at most 2048 by 2048 never throw. |
| `Carrier.PlanFills` | packages/optimizer/src/visual-context.js:458-462 | The columns and rows of an accepted layout fit inside the margins, and one more would not. |
| `Carrier.PlanExactly` | packages/optimizer/src/visual-context.js:446-460 | Each option, or its default, must lie in its own range, and 24 columns and a row must fit; each part of the layout is its own option. |
| `Carrier.PagesPartition` | packages/optimizer/src/visual-context.js:466-485 | The pages hold the rows in order, none is empty, all but the last are full, and their number is the computed one. |
| `Carrier.PageCountLeast` | packages/optimizer/src/visual-context.js:464-467 | No layout that keeps newlines and fits the columns needs fewer pages. |
| `Carrier.Paginate` | packages/optimizer/src/visual-context.js:483-485 | The slices taken by the page loop are these pages. |
| `Carrier.PageFits` | packages/optimizer/src/visual-context.js:458-495 | Every page that is drawn, header lines included, fits its grid, so no glyph is clipped. |
| `Carrier.RejoinSpan` | packages/optimizer/src/visual-context.js:483-499 | Consecutive rows decode together as one slice of the encoded text. |
| `Carrier.CarrierLossless` | packages/optimizer/src/visual-context.js:464-506 | The character ranges of the pages cover the encoded text, and decoding them one by one and rejoining gives the source text. |
| `Carrier.CreateCarrier` | packages/optimizer/src/visual-context.js:446-506 | Throws exactly for a bad layout or too many pages; otherwise every page has its number, ranges and a file that shows it. |
| `Legible.PicturesTellCharacters` | packages/optimizer/src/visual-context.js:441-508 | Pages of two carriers that look the same hold the same characters in every cell they share, and inkless ones elsewhere, for a legible font with printable ASCII. |
| `Legible.PageSays` | packages/optimizer/src/visual-context.js:486-495 | What stands on a page: format, number and digest, notes on escapes, each cut at the last column, and the rows of the page. |
| `TokenEstimate.EstimateTextTokens` | packages/optimizer/src/text-estimate.js:1-26 | The loop computes the sum over maximal word runs and other visible units. |
| `TokenEstimate.EstimateJoin` | packages/optimizer/src/text-estimate.js:1-26 | Joining two texts saves exactly what joining the word at the seam saves. |
| `TokenEstimate.EstimateAppend` | packages/optimizer/src/text-estimate.js:1-26 | est(a) + est(b) - 1 <= est(a + b) <= est(a) + est(b), and exactly when the lower bound is met. |
| `TokenEstimate.EstimateParts` | packages/optimizer/src/text-estimate.js:1-26 | A word costs a quarter of its units, rounded up, another visible unit one, and parts that cut no word add up: this determines every estimate. |
| `Connectors.EnsureContainer` | packages/connectors/src/index.js:283-295 | Throws exactly when a member on the way is no object; otherwise creates the missing objects, or none, and finds the container. |
| `Connectors.ApplyServer` | packages/connectors/src/index.js:297-302 | The result is the config with the entry put at the path. |
| `Connectors.RemoveServer` | packages/connectors/src/index.js:304-310 | The result is the config without the entry, unchanged if it was not there. |
| `Connectors.UpdateFrame` | packages/connectors/src/index.js:283-310 | Every path of keys that parts from the edited one reads as before, at every level. |
| `Connectors.ApplyFound` | packages/connectors/src/index.js:297-302 | After connecting the entry is found where it was put. |
| `Connectors.ApplyIdempotent` | packages/connectors/src/index.js:382-404 | Connecting twice is connecting once. |
| `Connectors.ConnectFrame` | packages/connectors/src/index.js:297-310 | Connecting and disconnecting keep every other key at every level. |
| `Connectors.DisconnectAfterConnect` | packages/connectors/src/index.js:406-427 | Disconnecting after connecting gives the config without the entry, with the container created if it was missing. |
| `Connectors.DisconnectRestores` | packages/connectors/src/index.js:406-427 | It gives the original config exactly when the container existed and lacked the entry. |
| `Detector.UnchangedExactly` | packages/connectors/src/index.js:387-388 | A plan reports no change exactly when the entry is there already, up to key order. |
| `Detector.EntryProperties` | packages/connectors/src/index.js:266-281 | The entry has the command, arguments and environment of the options. |
| `Detector.EntrySays` | packages/connectors/src/index.js:262-281 | What the written entry holds under each key, with the order in which the four sources of the bundle path are asked. |
| `Detector.StateExactly` | packages/connectors/src/index.js:498-530 | What the detector compares: the command as it stands, arguments and environment as texts, the bundle path, empty if it is not there. |
| `Detector.InstalledExactly` | packages/connectors/src/index.js:498-504 | An entry counts as installed exactly when there is an object at its path. |
| `Detector.ActionExactly` | packages/connectors/src/index.js:532-537 | Which action is recommended in each case. |
| `Detector.EqualEntryState` | packages/connectors/src/index.js:498-530 | An entry equal to the expected one up to key order passes every check of the detector. |
| `Detector.RepairReasons` | packages/connectors/src/index.js:539-552 | The reported reasons are exactly the failed checks, and only the first complaint about the environment. |
| `Detector.ConnectedIsConfigured` | packages/connectors/src/index.js:498-537 | After connecting the detector reports `already_configured`, and only an empty bundle path is left to repair. |
| `Detector.UnchangedIsConfigured` | packages/connectors/src/index.js:382-404 | If connecting would change nothing, the detector already reports a configured client. |
| `Detector.DisconnectedIsMissing` | packages/connectors/src/index.js:532-537 | After disconnecting the detector asks to connect. |
| `Detector.AgreeExactly` | packages/connectors/src/index.js:382-404 | Connecting changes nothing exactly when the action is `already_configured`, the entry has the keys `command`, `args` and `env` only, `args` is a list of texts and `env` an object of texts. |
| `Detector.DetectorIgnoresExtraKeys` | packages/connectors/src/index.js:498-537 | An entry with any further key is `already_configured`, yet connecting changes it. |
| `Detector.DetectorMissesArgs` | packages/connectors/src/index.js:503-511 | So is an entry without `args` when no arguments are expected, and connecting changes it too. |
| `Consent.CheckShape` | packages/controller/src/index.js:283-311 | No complaint exactly for public-safe records with known, well-formed fields and the fixed boundary values. |
| `Consent.CompareScope` | packages/controller/src/index.js:554-566 | No complaint exactly when app, purpose, operations and zones match. |
| `Consent.VerifyConsentGrant` | packages/controller/src/index.js:274-323 | No error exactly for a well-formed, unexpired, unrevoked grant in scope; which of expired and revoked is reported; and exactly when it throws. |
| `Consent.LapsedExactly` | packages/controller/src/index.js:314-317 | When a grant counts as expired or revoked. |
| `Consent.PublicRefExactly` | packages/controller/src/index.js:12-12 | A public reference is `ref:`, a letter or digit, and at most 255 units of a fixed alphabet. |
| `Consent.HeldForm` | packages/controller/src/index.js:295-311 | The references, lists and boundary flags of every grant that holds. |
| `Consent.HeldSays` | packages/controller/src/index.js:276-323 | What every grant that holds says: active, ending later, not revoked, for the app and purpose, covering all that is asked. |
| `Consent.NormalizedSet` | packages/controller/src/index.js:502-518 | Normalised arrays hold the same texts, each once, and pass the checks of the verifier exactly when each text does. |
| `Consent.MadeRefIsPublic` | packages/controller/src/index.js:728-735 | Every derived reference is a public reference. |
| `Consent.CreatedGrantHolds` | packages/controller/src/index.js:249-323 | A created grant verifies exactly when it has a zone, four-digit years, is active, unexpired (an expiry that is not given being the time of issue plus the time to live), unrevoked, and the request asks for no more. |
| `Consent.CreatedGrantSays` | packages/controller/src/index.js:249-269 | Every field of a created grant, in terms of the options. |
| `Consent.CreatedGrantRefs` | packages/controller/src/index.js:270-272 | The three references of a created grant: those of the caller, or derived from the record without the later ones. |
| `Consent.NoZoneNeverHolds` | packages/controller/src/index.js:249-323 | With an empty list of zones a grant is created that holds for no request at any time. |
| `Consent.LimitTimeNeverHolds` | packages/controller/src/index.js:249-323 | With an expiry at the first instant of the year 10000 a grant is created that holds for no request at any time. |
| `Recall.RequestExactly` | packages/controller/src/index.js:325-333 | Which requests the normalisers let through. |
| `Recall.SelectGrant` | packages/controller/src/index.js:587-602 | The loop returns the first grant that holds, else the first grant, and throws exactly for an unreadable time and a record. |
| `Recall.BlockingReasons` | packages/controller/src/index.js:338-340 | The counts block exactly when a candidate is deleted or sensitive, each with its reason. |
| `Recall.CreateRecallVetoDecision` | packages/controller/src/index.js:325-382 | Returns the specified decision, or throws exactly for bad input, an unreadable time with a record among the grants, or a decision that the public-safety scan refuses. |
| `Recall.VerdictMeaning` | packages/controller/src/index.js:335-376 | Safe to share exactly when the counts are clear and some supplied grant holds; every refusal has its reasons; deny and ask are told apart; the references are those of the deciding grant. |
| `Recall.OrderIndependent` | packages/controller/src/index.js:587-602 | The order of the grants does not matter for sharing. |
| `Recall.RefusalStays` | packages/controller/src/index.js:325-382 | Later times, more revocations, growing counts and fewer grants never turn a refusal into an allowance. |
| `Recall.CreatedGrantAllows` | packages/controller/src/index.js:249-382 | A created grant alone lets a request through exactly when the request stays inside what it was made for. |
| `FirstOfEach.FirstsExactly` | packages/importers/src/index.js:1275-1292 | A loop with a set of seen keys keeps exactly the first item of each key, in order. |
| `Candidates.UniqueCandidates` | packages/importers/src/index.js:1215-1225 | The loop keeps the first record of each key; ids that are arrays or objects are never duplicates. |
| `Candidates.UniqueExactly` | packages/importers/src/index.js:1215-1225 | A record is kept exactly when no earlier one has the same id, or the same content where there is none. |
| `Candidates.UnseenAgain` | packages/importers/src/index.js:1215-1225 | Leaving duplicates out loses no key and is idempotent. |
| `Candidates.CollectAgain` | packages/importers/src/index.js:1227-1232 | Adding the reported candidates once more changes nothing exactly when none of them has a structured id. |
| `Candidates.CollectReportVaultWrites` | packages/importers/src/index.js:1275-1292 | Every result has a verified receipt, no two share a key, and every write with a verified receipt has a result with its key. |
| `Candidates.VaultWriteCounts` | packages/importers/src/index.js:1299-1310 | The loop counts the written ids of candidates. |
| `Candidates.StructuredExactly` | packages/importers/src/index.js:1299-1311 | Every array or object among the ids is counted as one id. |
| `Candidates.CustodyConserved` | packages/importers/src/index.js:1299-1310 | Every id is counted once, as written or as candidate only, so the lower bound of zero is never needed. |
| `Candidates.BackedExactly` | packages/importers/src/index.js:1312-1316 | Custody is vault-backed exactly when there are ids and every one of them is written. |
| `Capsule.ReportCompletenessConflicts` | packages/importers/src/index.js:1364-1372 | No complaint exactly when no report has conflicting flags. |
| `Capsule.ConflictFree` | packages/importers/src/index.js:1364-1372 | A report has no conflict exactly when its two flags say the same and no evidence is marked as conflicting. |
| `Capsule.TrimmedExactly` | packages/importers/src/index.js:143-147 | What is trimmed: nothing for null, a text itself, the JSON text of another scalar. |
| `Capsule.CollectStrings` | packages/importers/src/index.js:143-153 | The results are the non-empty trimmed texts of the values, each once. |
| `Capsule.CheckSignature` | packages/mesh/src/index.js:205-222 | No error exactly for a well-formed signature that verifies with the resolved key. |
| `Capsule.VerifyCapsuleManifest` | packages/mesh/src/index.js:290-310 | No error exactly for a well-formed, unexpired manifest with the expected roots and a valid signature. |
| `Capsule.CapsuleVerificationErrors` | packages/importers/src/index.js:1430-1456 | No error exactly when hashes, roots, counts and summaries all agree and no report conflicts. |
| `Capsule.CreatedManifestOk` | packages/mesh/src/index.js:267-310 | A created manifest verifies with the descriptor of its node exactly until it expires. |
| `Capsule.PayloadRead` | packages/importers/src/index.js:1535-1542 | The reports survive the payload, and the candidates do exactly when no reported one has a structured id. |
| `Capsule.ExportImport` | packages/importers/src/index.js:1458-1594 | Importing an exported capsule succeeds exactly before expiry, without conflicting flags and without structured ids, and then returns the same candidates. |
| `CapsuleRoots.ExportedRoots` | packages/importers/src/index.js:1458-1487 | The two roots of an exported capsule are those of the addresses and of the receipt hashes of the verified writes of exported candidates, unless receipts collide. |
| `CapsuleRoots.ImportedRoots` | packages/importers/src/index.js:1535-1553 | The same for every capsule that is accepted, about its own payload. |
| `CapsuleRoots.CanonicalWriteSays` | packages/importers/src/index.js:1245-1292 | A verified write carries a created receipt at its own address, names its hash, and gives the key that verifies it. |
| `CapsuleRoots.SameKeySameWrite` | packages/importers/src/index.js:1275-1292 | Writes that the ambiguous joined key takes for the same are the same, unless their receipts collide. |
| `CapsuleContents.ExportedExactly` | packages/importers/src/index.js:1458-1494 | Exporting throws exactly for empty parties or times, times that cannot be read, or a node without key id. |
| `CapsuleContents.ExportedManifest` | packages/mesh/src/index.js:267-288 | The manifest of an exported capsule: parties, times, payload hash, derived id, and a signature over all of them. |
| `CapsuleContents.UnsignedSays` | packages/mesh/src/index.js:163-190 | The signed record holds every part of the manifest under its own name. |
| `CapsuleContents.ExportedMetadata` | packages/importers/src/index.js:1494-1520 | The metadata repeats the hashes of the manifest and gives report hashes, count, completeness and the root of the source references. |
| `CapsuleContents.PayloadSays` | packages/importers/src/index.js:1473-1484 | What the payload holds. |
| `CapsuleContents.ImportedSays` | packages/importers/src/index.js:1535-1576 | An accepted capsule is signed by the trusted key, unexpired, committed to its payload, and counted and flagged as its payload says. |
| `CapsuleContents.ExportedCustody` | packages/importers/src/index.js:1299-1330 | How many ids have a verified write and how many have none, and the status and complaints that follow, from the reports and candidates alone. |
| `CapsuleContents.ImportedCustody` | packages/importers/src/index.js:1441-1451 | The metadata of every accepted capsule describe the custody of its own payload in the same way. |
| `CapsuleContents.ExportedLimitations` | packages/importers/src/index.js:1332-1356 | The limitations root covers the texts of the complaints and the limitations that reports and candidates list, each once. |
| `CapsuleContents.CustodyCodes` | packages/importers/src/index.js:1318-1330 | Each custody complaint is made once, and exactly when there is reason for it. |
| `CapsuleContents.LimitationsSpelled` | packages/importers/src/index.js:1332-1344 | The texts of the three custody limitations. |
| `CapsuleContents.LimitationsListed` | packages/importers/src/index.js:1350-1356 | The limitations root is that of an array of all limitations that are not empty, each once. |
| `Capsule.StructuredIdRefused` | packages/importers/src/index.js:1458-1594 | A concrete report whose capsule is exported and never imported. |
| `Capsule.ManifestBindsPayload` | packages/importers/src/index.js:1430-1456 | Two capsules accepted under one manifest carry the same payload up to key order, unless their texts collide. |

## Left out

- Numbers are integers: fractions, exponents, negative zero and values from 1e21 on are not modelled, nor is their formatting.
- Fields whose value is `undefined` and the all-zero hash of a receipt that cannot be printed: the model has JSON values only.
- Camel-case aliases of options, and callers that pass their own `receipt_id`, `signature`, `capsule_id`, `reason_codes` or `grant_refs`.
- The texts and the order of error messages; for shape checks, which complaint belongs to which field.
- SHA-256, HMAC, Ed25519 and deflate themselves, base64url decoding of signatures, and key lookup by function.
- MerkleSets.NonMembershipSound: not claimed for arbitrary records, for which it is false: the checker does not tie index and size to the path (`MerkleSets.RecordsProveAbsenceExactly`).
- MerkleSets.NonMembershipSoundByShape: the shape is a condition of this model, which the checker does not test; without it the conclusion is false for every set of two or more values.
- ByteRoots.ByteNonMembershipSound: not claimed for lone surrogates, for which it is false; `ByteRoots.MatchingRecordsExactly` states exactly for which sets it holds.
- Checkpoints, nullifiers, public launch ledgers and the regular-expression scanners for secrets and plaintext in `packages/core`.
- Consent.VerifyConsentGrant: the public-safety scan and the reading of dates are parameters; they depend on pattern text and on `Date`.
- Recall.CreateRecallVetoDecision: the public-safety scan of the decision is a parameter; the derived request, proof and receipt references of the decision are not modelled.
- Private bubbles and weather reports of `packages/controller`: easy members only.
- Candidates.UniqueCandidates: candidates are values, as after a trip through JSON text; an import in the same process, where structured ids keep their identity, is not modelled.
- Capsule.VerifyCapsuleManifest: manifests have text fields only, so the plaintext scan, which looks at key names, never applies; capsule hashes, trust bundles and expected issuers are left out.
- Capsule.ExportImport: the digest of the owner scope and `trim` are parameters; writing the candidates to a vault is left out.
- Witness checkpoints, the relay store and federation grants of `packages/mesh`; the importers of single formats.
- Connectors.EnsureContainer: the config is a value and the cursor a position in it; aliasing of the cloned objects is not captured. `__proto__` as a server name is left out.
- Reading, backing up and writing config files, default paths, wizards, trust cards and Claude bundles of `packages/connectors`.
- Carrier.CreateCarrier: the font is a parameter with pixels inside 6 by 10 cells; BDF parsing, the carrier id, image token estimates and the manifest checks are left out.
- Raster.SamePictureSameGlyphs: trailing blanks of a line cannot be seen in a picture, so reading a page back is stated cell by cell.
- ObjectGraph.AcceptsExactly: does not tell which of the two errors is thrown when both a cycle and an unsupported value are reachable.
- The capacity of JavaScript arrays and strings: lists and texts may have any length.
- `packages/hosted-cloud`, `packages/metering`, `packages/boundary`, `packages/enterprise`, `packages/mcp-server`, the command line, desktop, web and browser apps: field-by-field builders, floating-point sums, input and output, user interface.
