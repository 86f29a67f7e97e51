/** Merkle roots and proofs over bytes: what a hash of UTF-8 can tell apart. */
module ByteRoots {
  import opened JsText
  import opened Sorting
  import opened VisualText
  import opened Json
  import opened Crc
  import opened Hashing
  import opened Merkle
  import opened MerkleShape
  import opened MerkleSets
  import opened Utf8

  // ----- Every text hashed for well-formed leaves is well formed -----

  lemma DigestPlain(d: Digest)
    ensures IsPlain(d)
  {
  }

  lemma PrefixesPlain()
    ensures IsPlain(LEAF_PREFIX) && IsPlain(NODE_PREFIX) && IsPlain(EMPTY_TEXT)
  {
    LitPlain("enigma.merkle.leaf.v1");
    LitPlain("enigma.merkle.node.v1");
    LitPlain("enigma.merkle.empty.v1");
    PlainAppend(Lit("enigma.merkle.leaf.v1"), [0]);
    PlainAppend(Lit("enigma.merkle.node.v1"), [0]);
  }

  /** Every text hashed for a root is well formed when the leaves are. */
  lemma {:induction false} TreeTextsWellFormed(h: HashFn, t: Tree)
    requires forall i :: 0 <= i < |Leaves(t)| ==> IsWellFormed(Leaves(t)[i])
    ensures forall x :: x in TreeTexts(h, t) ==> IsWellFormed(x)
  {
    hide IsWellFormed, IsPlain;
    PrefixesPlain();
    match t
    case Leaf(v) =>
      assert Leaves(t)[0] == v;
      PlainWellFormed(LEAF_PREFIX);
      WellFormedAppend(LEAF_PREFIX, v);
    case Node(l, r) =>
      var a, b := Leaves(l), Leaves(r);
      assert Leaves(t) == a + b;
      forall i | 0 <= i < |a| ensures IsWellFormed(a[i]) { assert Leaves(t)[i] == a[i]; }
      forall i | 0 <= i < |b| ensures IsWellFormed(b[i]) { assert Leaves(t)[|a| + i] == b[i]; }
      TreeTextsWellFormed(h, l);
      TreeTextsWellFormed(h, r);
      NodeTextPlain(TreeDigest(h, l), TreeDigest(h, r));
      PlainWellFormed(NodeText(TreeDigest(h, l), TreeDigest(h, r)));
  }

  lemma NodeTextPlain(left: Digest, right: Digest)
    ensures IsPlain(NodeText(left, right))
  {
    hide IsPlain;
    PrefixesPlain();
    DigestPlain(left);
    DigestPlain(right);
    LitPlain([0 as char]);
    PlainAppend(Lit([0 as char]), right);
    assert Lit([0 as char]) == [0];
    PlainAppend(left, [0] + right);
    PlainAppend(NODE_PREFIX, left + ([0] + right));
  }

  lemma RootTextsWellFormed(h: HashFn, values: seq<Text>)
    requires forall i :: 0 <= i < |values| ==> IsWellFormed(values[i])
    ensures forall x :: x in RootTexts(h, values) ==> IsWellFormed(x)
  {
    hide IsWellFormed, IsPlain;
    PrefixesPlain();
    PlainWellFormed(EMPTY_TEXT);
    if |values| > 0 {
      TreeOfCorrect(h, values);
      TreeTextsWellFormed(h, TreeOf(values));
    }
  }

  lemma {:induction false} StepTextsWellFormed(h: HashFn, start: Digest, siblings: seq<Sibling>)
    requires SiblingsOk(siblings)
    ensures forall x :: x in StepTexts(h, start, siblings) ==> IsWellFormed(x)
  {
    hide IsWellFormed, IsPlain;
    if |siblings| > 0 {
      var n := |siblings| - 1;
      StepTextsWellFormed(h, start, siblings[..n]);
      var below, s := Climb(h, start, siblings[..n]), siblings[n];
      NodeTextPlain(below, s.hash);
      NodeTextPlain(s.hash, below);
      PlainWellFormed(StepText(below, s));
    }
  }

  lemma ClimbTextsWellFormed(h: HashFn, value: Text, siblings: seq<Sibling>)
    requires SiblingsOk(siblings) && IsWellFormed(value)
    ensures forall x :: x in ClimbTexts(h, value, siblings) ==> IsWellFormed(x)
  {
    hide IsWellFormed, IsPlain, StepTexts;
    PrefixesPlain();
    PlainWellFormed(LEAF_PREFIX);
    WellFormedAppend(LEAF_PREFIX, value);
    StepTextsWellFormed(h, LeafHash(h, value), siblings);
  }

  // ----- Replacing the lone surrogates of the leaves -----

  /** A leaf and its replacement have the same bytes, so every hash of bytes takes them for the same leaf. */
  lemma LeafReplaced(hash: ByteHash, v: Text)
    ensures Utf8Bytes(LeafText(Replaced(v))) == Utf8Bytes(LeafText(v))
    ensures LeafHash(TextHash(hash), Replaced(v)) == LeafHash(TextHash(hash), v)
  {
    hide Utf8Bytes, Replaced, IsPlain;
    PrefixesPlain();
    ReplacedBytes(v);
    ReplacedAfter(LEAF_PREFIX, v);
    ReplacedAfter(LEAF_PREFIX, Replaced(v));
    SameBytes(LeafText(Replaced(v)), LeafText(v));
  }

  /** The root of a list is the root of its replaced values. */
  lemma RootReplaced(hash: ByteHash, values: seq<Text>)
    ensures MerkleRoot(TextHash(hash), values) == MerkleRoot(TextHash(hash), Map(Replaced, values))
  {
    hide Utf8Bytes, Replaced, LevelRoot, LeafHash;
    var h := TextHash(hash);
    forall i | 0 <= i < |values| ensures LeafHash(h, values[i]) == LeafHash(h, Map(Replaced, values)[i]) {
      LeafReplaced(hash, values[i]);
    }
    assert LeafLevel(h, values) == LeafLevel(h, Map(Replaced, values));
  }

  ghost function ReplacedTree(t: Tree): Tree
  {
    match t
    case Leaf(v) => Leaf(Replaced(v))
    case Node(l, r) => Node(ReplacedTree(l), ReplacedTree(r))
  }

  ghost function ReplacedTrees(ts: seq<Tree>): (r: seq<Tree>)
    ensures |r| == |ts|
  {
    seq(|ts|, i requires 0 <= i < |ts| => ReplacedTree(ts[i]))
  }

  lemma {:induction false} NextReplaced(ts: seq<Tree>)
    ensures NextTrees(ReplacedTrees(ts)) == ReplacedTrees(NextTrees(ts))
  {
    if |ts| >= 2 {
      NextReplaced(ts[2..]);
      assert ReplacedTrees(ts)[2..] == ReplacedTrees(ts[2..]);
    }
  }

  lemma {:induction false} RootTreeReplaced(ts: seq<Tree>)
    requires |ts| > 0
    ensures RootTree(ReplacedTrees(ts)) == ReplacedTree(RootTree(ts))
    decreases |ts|
  {
    if |ts| > 1 {
      NextReplaced(ts);
      RootTreeReplaced(NextTrees(ts));
    }
  }

  /** Replacing changes no digest of a tree and adds no byte string to those hashed for it. */
  lemma {:induction false} TreeReplaced(hash: ByteHash, t: Tree)
    ensures TreeDigest(TextHash(hash), ReplacedTree(t)) == TreeDigest(TextHash(hash), t)
    ensures BytesOf(TreeTexts(TextHash(hash), ReplacedTree(t))) <= BytesOf(TreeTexts(TextHash(hash), t))
  {
    hide Utf8Bytes, Replaced, TextHash, LeafHash, NodeHash, LeafText, NodeText;
    var h := TextHash(hash);
    match t
    case Leaf(v) =>
      LeafReplaced(hash, v);
      assert Utf8Bytes(LeafText(v)) in BytesOf(TreeTexts(h, t));
    case Node(l, r) =>
      TreeReplaced(hash, l);
      TreeReplaced(hash, r);
      var top := {NodeText(TreeDigest(h, l), TreeDigest(h, r))};
      BytesUnion(top, TreeTexts(h, l), TreeTexts(h, r));
      BytesUnion(top, TreeTexts(h, ReplacedTree(l)), TreeTexts(h, ReplacedTree(r)));
  }

  lemma BytesUnion(a: set<Text>, b: set<Text>, c: set<Text>)
    ensures BytesOf(a + b + c) == BytesOf(a) + BytesOf(b) + BytesOf(c)
  {
    hide Utf8Bytes;
    forall x | x in BytesOf(a) + BytesOf(b) + BytesOf(c) ensures x in BytesOf(a + b + c) {
      var t :| (t in a || t in b || t in c) && Utf8Bytes(t) == x;
    }
  }

  lemma RootBytesReplaced(hash: ByteHash, values: seq<Text>)
    ensures BytesOf(RootTexts(TextHash(hash), Map(Replaced, values))) <= BytesOf(RootTexts(TextHash(hash), values))
  {
    hide Utf8Bytes, Replaced, TextHash;
    if |values| > 0 {
      assert LeafTrees(Map(Replaced, values)) == ReplacedTrees(LeafTrees(values));
      RootTreeReplaced(LeafTrees(values));
      TreeReplaced(hash, TreeOf(values));
    }
  }

  // ----- What a root commits to -----

  /** The bytes hashed for the root of a set. */
  ghost function SetBytes(hash: ByteHash, values: seq<Text>): set<seq<Byte>>
  {
    BytesOf(RootTexts(TextHash(hash), Sorted(values)))
  }

  lemma ListRootExactly(hash: ByteHash, a: seq<Text>, b: seq<Text>)
    requires BytesCollisionFree(hash, BytesOf(RootTexts(TextHash(hash), a)) + BytesOf(RootTexts(TextHash(hash), b)))
    ensures MerkleRoot(TextHash(hash), a) == MerkleRoot(TextHash(hash), b) <==> Map(Replaced, a) == Map(Replaced, b)
  {
    hide Utf8Bytes, Replaced, TextHash, RootTexts, MerkleRoot, IsWellFormed;
    var h, x, y := TextHash(hash), Map(Replaced, a), Map(Replaced, b);
    RootReplaced(hash, a);
    RootReplaced(hash, b);
    RootBytesReplaced(hash, a);
    RootBytesReplaced(hash, b);
    ReplacedListWellFormed(a);
    ReplacedListWellFormed(b);
    RootTextsWellFormed(h, x);
    RootTextsWellFormed(h, y);
    BytesUnion(RootTexts(h, x), RootTexts(h, y), {});
    assert RootTexts(h, x) + RootTexts(h, y) + {} == RootTexts(h, x) + RootTexts(h, y);
    WellFormedCollisionFree(hash, RootTexts(h, x) + RootTexts(h, y));
    if MerkleRoot(h, a) == MerkleRoot(h, b) { RootCommits(h, x, y); }
  }

  lemma ReplacedListWellFormed(values: seq<Text>)
    ensures forall i :: 0 <= i < |values| ==> IsWellFormed(Map(Replaced, values)[i])
  {
    hide Replaced, IsWellFormed;
    forall i | 0 <= i < |values| ensures IsWellFormed(Map(Replaced, values)[i]) { ReplacedWellFormed(values[i]); }
  }

  /** Set roots over bytes are equal exactly when the sorted leaves agree after replacing lone surrogates, unless
      two of the hashed byte strings collide. */
  lemma ByteRootExactly(hash: ByteHash, a: seq<Text>, b: seq<Text>)
    requires BytesCollisionFree(hash, SetBytes(hash, a) + SetBytes(hash, b))
    ensures SetRoot(TextHash(hash), a) == SetRoot(TextHash(hash), b) <==>
      Map(Replaced, Sorted(a)) == Map(Replaced, Sorted(b))
  {
    ListRootExactly(hash, Sorted(a), Sorted(b));
  }

  lemma WellFormedList(values: seq<Text>)
    requires forall i :: 0 <= i < |values| ==> IsWellFormed(values[i])
    ensures Map(Replaced, values) == values
  {
    hide Replaced, IsWellFormed;
    forall i | 0 <= i < |values| ensures Replaced(values[i]) == values[i] { WellFormedKept(values[i]); }
  }

  /** For leaves without lone surrogates, set roots are equal exactly when the sets are. */
  lemma ByteRootCommits(hash: ByteHash, a: seq<Text>, b: seq<Text>)
    requires Distinct(a) && Distinct(b) && forall t :: t in a || t in b ==> IsWellFormed(t)
    requires BytesCollisionFree(hash, SetBytes(hash, a) + SetBytes(hash, b))
    ensures SetRoot(TextHash(hash), a) == SetRoot(TextHash(hash), b) <==> forall t :: t in a <==> t in b
  {
    hide IsWellFormed, Utf8Bytes, SetRoot, Replaced, TextHash, Sorted, SetBytes;
    ByteRootExactly(hash, a, b);
    SortedValues(a);
    SortedValues(b);
    assert forall i :: 0 <= i < |Sorted(a)| ==> Sorted(a)[i] in Sorted(a);
    assert forall i :: 0 <= i < |Sorted(b)| ==> Sorted(b)[i] in Sorted(b);
    WellFormedList(Sorted(a));
    WellFormedList(Sorted(b));
    if forall t :: t in a <==> t in b { StrictlySortedUnique(Self, Sorted(a), Sorted(b)); }
  }

  /** The set of one lone surrogate and the set of U+FFFD have the same root, for every hash. */
  lemma LoneSurrogateLeaf(hash: ByteHash, u: Unit)
    requires IsLone([u])
    ensures [u] != REPLACEMENT && SetRoot(TextHash(hash), [[u]]) == SetRoot(TextHash(hash), [REPLACEMENT])
  {
    hide TextHash, MerkleRoot;
    assert Replaced([u]) == REPLACEMENT + Replaced([]) && Replaced(REPLACEMENT) == REPLACEMENT + Replaced([]);
    assert Sorted([[u]]) == [[u]] && Sorted([REPLACEMENT]) == [REPLACEMENT];
    RootReplaced(hash, [[u]]);
    RootReplaced(hash, [REPLACEMENT]);
    assert Map(Replaced, [[u]]) == Map(Replaced, [REPLACEMENT]);
  }

  // ----- What a proof proves -----

  /** A checker cannot tell values with the same replacement apart: a membership proof verifies for all or none. */
  lemma SameProof(hash: ByteHash, p: MembershipProof, value: Text, root: Text)
    requires Replaced(value) == Replaced(p.value)
    ensures MembershipVerifies(TextHash(hash), p, root) <==>
      MembershipVerifies(TextHash(hash), p.(value := value), root)
  {
    hide Utf8Bytes, Replaced, TextHash, LeafHash, Climb;
    LeafReplaced(hash, value);
    LeafReplaced(hash, p.value);
  }

  /** A verified membership proof over bytes proves that a member has the same text after replacing lone
      surrogates, unless two of the hashed byte strings collide. */
  lemma ByteMembershipSound(hash: ByteHash, values: seq<Text>, p: MembershipProof)
    requires MembershipVerifies(TextHash(hash), p, MerkleRoot(TextHash(hash), values))
    requires var h := TextHash(hash);
      BytesCollisionFree(hash, BytesOf(RootTexts(h, values)) + BytesOf(ClimbTexts(h, p.value, p.siblings)))
    ensures exists i :: 0 <= i < |values| && Replaced(values[i]) == Replaced(p.value)
  {
    hide Utf8Bytes, Replaced, TextHash, RootTexts, MerkleRoot, MembershipVerifies, IsWellFormed, ClimbTexts;
    var h, x, v := TextHash(hash), Map(Replaced, values), Replaced(p.value);
    VerifiedSiblings(h, p, MerkleRoot(h, values));
    RootReplaced(hash, values);
    RootBytesReplaced(hash, values);
    ClimbBytesReplaced(hash, p.value, p.siblings);
    ReplacedBytes(p.value);
    SameProof(hash, p, v, MerkleRoot(h, values));
    ReplacedListWellFormed(values);
    RootTextsWellFormed(h, x);
    ReplacedWellFormed(p.value);
    ClimbTextsWellFormed(h, v, p.siblings);
    BytesUnion(RootTexts(h, x), ClimbTexts(h, v, p.siblings), {});
    var texts := RootTexts(h, x) + ClimbTexts(h, v, p.siblings);
    assert texts + {} == texts;
    WellFormedCollisionFree(hash, texts);
    MembershipSound(h, x, p.(value := v));
    var i :| 0 <= i < |x| && x[i] == v;
  }

  lemma VerifiedSiblings(h: HashFn, p: MembershipProof, root: Text)
    requires MembershipVerifies(h, p, root)
    ensures SiblingsOk(p.siblings)
  {
  }

  lemma ClimbBytesReplaced(hash: ByteHash, value: Text, siblings: seq<Sibling>)
    requires SiblingsOk(siblings)
    ensures BytesOf(ClimbTexts(TextHash(hash), Replaced(value), siblings))
      == BytesOf(ClimbTexts(TextHash(hash), value, siblings))
  {
    hide Utf8Bytes, Replaced, TextHash, LeafHash, StepTexts, LeafText;
    var h := TextHash(hash);
    LeafReplaced(hash, value);
    var steps := StepTexts(h, LeafHash(h, value), siblings);
    BytesUnion({LeafText(value)}, steps, {});
    BytesUnion({LeafText(Replaced(value))}, steps, {});
    OneByteString(LeafText(value));
    OneByteString(LeafText(Replaced(value)));
    assert {LeafText(value)} + steps + {} == {LeafText(value)} + steps;
    assert {LeafText(Replaced(value))} + steps + {} == {LeafText(Replaced(value))} + steps;
  }

  lemma OneByteString(t: Text)
    ensures BytesOf({t}) == {Utf8Bytes(t)}
  {
  }

  /** The other way round: the proof of a member verifies for every value with the same replacement. */
  lemma ByteMembershipComplete(hash: ByteHash, values: seq<Text>, index: nat, value: Text)
    requires index < |values| && Replaced(value) == Replaced(values[index])
    ensures var h := TextHash(hash);
      MembershipVerifies(h, ProofFor(h, values, index).(value := value), MerkleRoot(h, values))
  {
    hide Utf8Bytes, Replaced, TextHash, MerkleRoot, MembershipVerifies;
    var h := TextHash(hash);
    MembershipComplete(h, values, index);
    SameProof(hash, ProofFor(h, values, index), value, MerkleRoot(h, values));
  }

  ghost predicate NeighboursWellFormed(p: NonMembershipProof)
  {
    && (p.predecessor.Some? ==> IsWellFormed(p.predecessor.value.value))
    && (p.successor.Some? ==> IsWellFormed(p.successor.value.value))
  }

  lemma NonMembershipTextsWellFormed(h: HashFn, p: NonMembershipProof)
    requires NeighboursWellFormed(p)
    ensures forall x :: x in NonMembershipTexts(h, p) ==> IsWellFormed(x)
  {
    hide IsWellFormed, IsPlain, ClimbTexts;
    PrefixesPlain();
    PlainWellFormed(EMPTY_TEXT);
    if p.predecessor.Some? && SiblingsOk(p.predecessor.value.siblings) {
      ClimbTextsWellFormed(h, p.predecessor.value.value, p.predecessor.value.siblings);
    }
    if p.successor.Some? && SiblingsOk(p.successor.value.siblings) {
      ClimbTextsWellFormed(h, p.successor.value.value, p.successor.value.siblings);
    }
  }

  /** With leaves and claimed neighbours without lone surrogates, a verified record of matching paths proves absence
      over bytes as it does over texts. */
  lemma ByteNonMembershipSound(hash: ByteHash, values: seq<Text>, p: NonMembershipProof)
    requires StrictlySorted(Self, values) && forall i :: 0 <= i < |values| ==> IsWellFormed(values[i])
    requires VerifyNonMembership(TextHash(hash), p, MerkleRoot(TextHash(hash), values))
    requires PathsMatch(p) && NeighboursWellFormed(p)
    requires var h := TextHash(hash);
      BytesCollisionFree(hash, BytesOf(RootTexts(h, values) + NonMembershipTexts(h, p)))
    ensures p.value !in values
  {
    hide TextHash, IsWellFormed, RootTexts, NonMembershipTexts, VerifyNonMembership, StrictlySorted, MerkleRoot,
      BytesOf;
    var h := TextHash(hash);
    RootTextsWellFormed(h, values);
    NonMembershipTextsWellFormed(h, p);
    WellFormedCollisionFree(hash, RootTexts(h, values) + NonMembershipTexts(h, p));
    NonMembershipSoundByShape(h, values, p);
  }

  // ----- Exactly when a record proves absence over bytes -----

  /** A text that no other text is taken for: no lone surrogate, and no U+FFFD. */
  predicate IsFirm(t: Text) { IsWellFormed(t) && 0xFFFD !in t }

  /** Another text with the same bytes, for a text that is not firm. */
  function Double(t: Text): Text { if IsWellFormed(t) then Damaged(t) else Replaced(t) }

  /** The first U+FFFD turned into a lone surrogate. */
  function Damaged(t: Text): Text
  {
    if |t| == 0 then []
    else if HeadChar(t) == REPLACEMENT then [0xD800] + t[1..]
    else HeadChar(t) + Damaged(t[|HeadChar(t)|..])
  }

  lemma {:induction false} DamagedReplaced(t: Text)
    requires IsWellFormed(t) && 0xFFFD in t
    ensures Damaged(t) != t && Replaced(Damaged(t)) == t
  {
    var c := HeadChar(t);
    var rest := t[|c|..];
    assert t == c + rest;
    WellFormedKept(rest);
    if c == REPLACEMENT {
      DamagedHead(rest);
    } else {
      PlainHead(c);
      assert 0xFFFD in rest;
      DamagedReplaced(rest);
      SeenAfter(c, Damaged(rest));
      if Damaged(t) == t { AppendInjective(c, c, Damaged(rest), rest); }
    }
  }

  lemma DamagedHead(rest: Text)
    requires IsWellFormed(rest)
    ensures Replaced([0xD800] + rest) == REPLACEMENT + Replaced(rest)
  {
    var t := [0xD800] + rest;
    assert |rest| > 0 ==> !IsLow(rest[0]);
    assert HeadChar(t) == [0xD800] && t[1..] == rest;
  }

  lemma PlainHead(c: Text)
    requires IsChar(c) && c != REPLACEMENT
    ensures 0xFFFD !in c
  {
    if |c| == 1 { assert c == [c[0]]; }
  }

  lemma SeenAfter(c: Text, rest: Text)
    requires IsChar(c) && !IsLone(c)
    ensures Replaced(c + rest) == c + Replaced(rest)
  {
    assert HeadChar(c + rest) == c && (c + rest)[|c|..] == rest;
  }

  lemma {:induction false} KeptWellFormed(t: Text)
    requires Replaced(t) == t
    ensures IsWellFormed(t)
  {
    ReplacedWellFormed(t);
  }

  lemma DoubleDiffers(t: Text)
    requires !IsFirm(t)
    ensures Double(t) != t && Replaced(Double(t)) == Replaced(t)
  {
    hide Replaced, Damaged;
    if IsWellFormed(t) {
      DamagedReplaced(t);
      WellFormedKept(t);
    } else {
      ReplacedBytes(t);
      if Replaced(t) == t { KeptWellFormed(t); }
    }
  }

  lemma {:induction false} ReplacedHolds(t: Text)
    requires !IsWellFormed(t)
    ensures 0xFFFD in Replaced(t)
  {
    var c := HeadChar(t);
    if !IsLone(c) { ReplacedHolds(t[|c|..]); }
  }

  /** A firm text is the only text with its bytes. */
  lemma FirmUnique(t: Text, other: Text)
    requires IsFirm(t) && Replaced(other) == Replaced(t)
    ensures other == t
  {
    hide Replaced, IsWellFormed;
    WellFormedKept(t);
    if !IsWellFormed(other) { ReplacedHolds(other); }
    if IsWellFormed(other) { WellFormedKept(other); }
  }

  /** A record for a member that is not firm: at the place of the member it claims the other text with the same
      bytes as a neighbour, and beyond it the true neighbour. */
  ghost function DoubleRecord(h: HashFn, values: seq<Text>, k: nat): NonMembershipProof
    requires k < |values|
  {
    var v := values[k];
    var claimed := Some(ProofFor(h, values, k).(value := Double(v)));
    if Less(Double(v), v) then
      NonMembershipProof(v, |values|, MerkleRoot(h, values), claimed,
        if k + 1 < |values| then Some(ProofFor(h, values, k + 1)) else None)
    else
      NonMembershipProof(v, |values|, MerkleRoot(h, values),
        if k > 0 then Some(ProofFor(h, values, k - 1)) else None, claimed)
  }

  lemma NeighbourVerifies(h: HashFn, values: seq<Text>, k: nat)
    requires k < |values|
    ensures MembershipVerifies(h, ProofFor(h, values, k), MerkleRoot(h, values)) && PathMatches(ProofFor(h, values, k))
  {
    hide Climb, PathShape, HasShape, SiblingsFrom;
    MembershipComplete(h, values, k);
    SiblingsFromShape(h, LeafLevel(h, values), k);
  }

  lemma DoubleRecordVerifies(hash: ByteHash, values: seq<Text>, k: nat)
    requires StrictlySorted(Self, values) && k < |values| && !IsFirm(values[k])
    ensures var h := TextHash(hash);
      VerifyNonMembership(h, DoubleRecord(h, values, k), MerkleRoot(h, values))
        && PathsMatch(DoubleRecord(h, values, k))
  {
    hide TextHash, MerkleRoot, MembershipVerifies, HasShape, PathShape, IsFirm, Double, SiblingsFrom, Replaced,
      StrictlySorted, Less;
    var h, v := TextHash(hash), values[k];
    DoubleDiffers(v);
    LessTotal(Double(v), v);
    NeighbourVerifies(h, values, k);
    ByteMembershipComplete(hash, values, k, Double(v));
    if k > 0 {
      NeighbourVerifies(h, values, k - 1);
      SortedStep(values, k - 1);
    }
    if k + 1 < |values| {
      NeighbourVerifies(h, values, k + 1);
      SortedStep(values, k);
    }
  }

  lemma SortedStep(values: seq<Text>, k: nat)
    requires StrictlySorted(Self, values) && k + 1 < |values|
    ensures Less(values[k], values[k + 1])
  {
    assert Less(Self(values[k]), Self(values[k + 1]));
  }

  lemma BytesSubset(a: set<Text>, b: set<Text>)
    requires a <= b
    ensures BytesOf(a) <= BytesOf(b)
  {
    hide Utf8Bytes;
  }

  /** The bytes hashed for a built proof, under any value with the same bytes, were hashed for the root. */
  lemma ProofBytes(hash: ByteHash, values: seq<Text>, k: nat, value: Text)
    requires k < |values| && Replaced(value) == Replaced(values[k])
    ensures var h := TextHash(hash);
      BytesOf(ClimbTexts(h, value, ProofFor(h, values, k).siblings)) <= BytesOf(RootTexts(h, values))
  {
    hide TextHash, Replaced, Utf8Bytes, RootTexts, ClimbTexts, BytesOf, SiblingsFrom;
    var h := TextHash(hash);
    var siblings := ProofFor(h, values, k).siblings;
    ProofTexts(h, values, k);
    BytesSubset(ClimbTexts(h, values[k], siblings), RootTexts(h, values));
    ClimbBytesReplaced(hash, value, siblings);
    ClimbBytesReplaced(hash, values[k], siblings);
  }

  lemma DoubleRecordBytes(hash: ByteHash, values: seq<Text>, k: nat)
    requires k < |values| && !IsFirm(values[k])
    ensures var h := TextHash(hash);
      BytesOf(NonMembershipTexts(h, DoubleRecord(h, values, k)))
        <= BytesOf(RootTexts(h, values)) + BytesOf({EMPTY_TEXT})
  {
    hide TextHash, Replaced, Utf8Bytes, RootTexts, ClimbTexts, BytesOf, SiblingsFrom, IsFirm, Double, MerkleRoot;
    var h, v := TextHash(hash), values[k];
    var p := DoubleRecord(h, values, k);
    DoubleDiffers(v);
    ProofBytes(hash, values, k, Double(v));
    if k > 0 { ProofBytes(hash, values, k - 1, values[k - 1]); }
    if k + 1 < |values| { ProofBytes(hash, values, k + 1, values[k + 1]); }
    RecordBytes(h, p);
    NoBytes();
  }

  lemma NoBytes()
    ensures BytesOf({}) == {}
  {
  }

  ghost function NeighbourTextSet(h: HashFn, m: Option<MembershipProof>): set<Text>
  {
    if m.Some? && SiblingsOk(m.value.siblings) then ClimbTexts(h, m.value.value, m.value.siblings) else {}
  }

  lemma RecordBytes(h: HashFn, p: NonMembershipProof)
    ensures BytesOf(NonMembershipTexts(h, p))
         == BytesOf({EMPTY_TEXT}) + BytesOf(NeighbourTextSet(h, p.predecessor))
           + BytesOf(NeighbourTextSet(h, p.successor))
  {
    hide BytesOf, ClimbTexts;
    BytesUnion({EMPTY_TEXT}, NeighbourTextSet(h, p.predecessor), NeighbourTextSet(h, p.successor));
  }

  /** A record of matching paths verifies, and no two of the hashed byte strings collide. */
  ghost predicate VerifiesOverBytes(hash: ByteHash, values: seq<Text>, p: NonMembershipProof)
  {
    var h := TextHash(hash);
    && VerifyNonMembership(h, p, MerkleRoot(h, values)) && PathsMatch(p)
    && BytesCollisionFree(hash, BytesOf(RootTexts(h, values)) + BytesOf(NonMembershipTexts(h, p)))
  }

  /** Every such record proves absence. */
  ghost predicate MatchingRecordsProveAbsence(hash: ByteHash, values: seq<Text>)
  {
    forall p :: VerifiesOverBytes(hash, values, p) ==> p.value !in values
  }

  lemma FirmNeighbour(hash: ByteHash, values: seq<Text>, p: NonMembershipProof, m: MembershipProof)
    requires VerifiesOverBytes(hash, values, p) && (p.predecessor == Some(m) || p.successor == Some(m)) && p.size > 0
    requires forall i :: 0 <= i < |values| ==> IsFirm(values[i])
    ensures IsWellFormed(m.value)
  {
    hide TextHash, MerkleRoot, RootTexts, ClimbTexts, BytesOf, Replaced, MembershipVerifies, IsWellFormed, PathsMatch;
    var h := TextHash(hash);
    VerifiedSiblings(h, m, MerkleRoot(h, values));
    RecordBytes(h, p);
    ByteMembershipSound(hash, values, m);
    var i :| 0 <= i < |values| && Replaced(values[i]) == Replaced(m.value);
    FirmUnique(values[i], m.value);
  }

  lemma FirmSetSound(hash: ByteHash, values: seq<Text>, p: NonMembershipProof)
    requires StrictlySorted(Self, values) && forall i :: 0 <= i < |values| ==> IsFirm(values[i])
    requires VerifiesOverBytes(hash, values, p)
    ensures p.value !in values
  {
    hide TextHash, MerkleRoot, RootTexts, NonMembershipTexts, BytesOf, MembershipVerifies, IsWellFormed, PathsMatch,
      StrictlySorted;
    var h := TextHash(hash);
    if p.size > 0 {
      if p.predecessor.Some? { FirmNeighbour(hash, values, p, p.predecessor.value); }
      if p.successor.Some? { FirmNeighbour(hash, values, p, p.successor.value); }
    }
    BytesUnion(RootTexts(h, values), NonMembershipTexts(h, p), {});
    NoBytes();
    assert RootTexts(h, values) + NonMembershipTexts(h, p) + {} == RootTexts(h, values) + NonMembershipTexts(h, p);
    ByteNonMembershipSound(hash, values, p);
  }

  /** Over bytes, verified records of matching paths prove absence exactly for sets without a lone surrogate and
      without U+FFFD in any leaf. */
  lemma MatchingRecordsExactly(hash: ByteHash, values: seq<Text>)
    requires StrictlySorted(Self, values)
    requires BytesCollisionFree(hash, BytesOf(RootTexts(TextHash(hash), values)) + BytesOf({EMPTY_TEXT}))
    ensures MatchingRecordsProveAbsence(hash, values) <==> forall i :: 0 <= i < |values| ==> IsFirm(values[i])
  {
    hide TextHash, MerkleRoot, RootTexts, NonMembershipTexts, BytesOf, StrictlySorted, IsFirm, VerifyNonMembership,
      PathsMatch;
    var h := TextHash(hash);
    if forall i :: 0 <= i < |values| ==> IsFirm(values[i]) {
      forall p | VerifiesOverBytes(hash, values, p) ensures p.value !in values { FirmSetSound(hash, values, p); }
    } else {
      var k :| 0 <= k < |values| && !IsFirm(values[k]);
      var p := DoubleRecord(h, values, k);
      DoubleRecordVerifies(hash, values, k);
      DoubleRecordBytes(hash, values, k);
      assert VerifiesOverBytes(hash, values, p) && p.value in values;
    }
  }

  /** The least failing set: a record that U+FFFD is absent from the set of U+FFFD, for every hash. */
  lemma ReplacementRecord(hash: ByteHash)
    ensures var h := TextHash(hash);
      var p := DoubleRecord(h, [REPLACEMENT], 0);
      && p.predecessor == Some(ProofFor(h, [REPLACEMENT], 0).(value := [0xD800])) && p.successor == None
      && VerifyNonMembership(h, p, MerkleRoot(h, [REPLACEMENT])) && PathsMatch(p) && p.value in [REPLACEMENT]
  {
    hide TextHash, MerkleRoot, MembershipVerifies, VerifyNonMembership;
    assert HeadChar(REPLACEMENT) == REPLACEMENT && REPLACEMENT[1..] == [];
    assert IsWellFormed(REPLACEMENT) && Double(REPLACEMENT) == [0xD800] + [];
    assert [0xD800] + [] == [0xD800];
    DoubleRecordVerifies(hash, [REPLACEMENT], 0);
  }
}
