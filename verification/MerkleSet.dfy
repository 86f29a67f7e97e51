/** `MerkleSet`: a mutable set of texts with a root, membership proofs and non-membership proofs. */
module MerkleSets {
  import opened JsText
  import opened Sorting
  import opened Json
  import opened CanonicalJson
  import opened Hashing
  import opened Merkle
  import opened MerkleShape

  function Self(t: Text): Text { t }

  /** `normalizeLeafValue`: a string stands for itself, any other value for its canonical text. */
  function NormalizeLeaf(v: Json): Text
  {
    if v.Str? then v.s else Canonicalize(v)
  }

  // ----- A JavaScript Set of texts, in insertion order -----

  ghost predicate Distinct(values: seq<Text>) { DistinctKeys(Self, values) }

  function Add(values: seq<Text>, t: Text): seq<Text>
  {
    if t in values then values else values + [t]
  }

  function Remove(values: seq<Text>, t: Text): seq<Text>
  {
    if |values| == 0 then []
    else if values[0] == t then Remove(values[1..], t)
    else [values[0]] + Remove(values[1..], t)
  }

  lemma {:induction false} RemoveMembers(values: seq<Text>, t: Text)
    ensures forall x :: x in Remove(values, t) <==> x in values && x != t
  {
    if |values| > 0 {
      RemoveMembers(values[1..], t);
      assert values == [values[0]] + values[1..];
    }
  }

  lemma {:induction false} RemoveDistinct(values: seq<Text>, t: Text)
    requires Distinct(values)
    ensures Distinct(Remove(values, t))
  {
    if |values| > 0 {
      var rest := Remove(values[1..], t);
      RemoveDistinct(values[1..], t);
      RemoveMembers(values[1..], t);
      forall j | 0 <= j < |rest| ensures values[0] != rest[j] {
        assert rest[j] in values[1..];
        var k :| 0 <= k < |values[1..]| && values[1..][k] == rest[j];
        assert Self(values[0]) != Self(values[k + 1]);
      }
    }
  }

  /** The set built from a list of texts by the constructor. */
  function AddAll(texts: seq<Text>): seq<Text>
  {
    if |texts| == 0 then [] else Add(AddAll(texts[..|texts| - 1]), texts[|texts| - 1])
  }

  lemma {:induction false} AddAllMembers(texts: seq<Text>)
    ensures Distinct(AddAll(texts))
    ensures forall t :: t in AddAll(texts) <==> t in texts
  {
    if |texts| > 0 {
      var n := |texts| - 1;
      AddAllMembers(texts[..n]);
      assert texts == texts[..n] + [texts[n]];
    }
  }

  /** `_sortedValues`. */
  function Sorted(values: seq<Text>): seq<Text> { Sort(Self, values) }

  lemma SortedValues(values: seq<Text>)
    requires Distinct(values)
    ensures StrictlySorted(Self, Sorted(values))
    ensures forall x :: x in Sorted(values) <==> x in values
  {
    SortSorted(Self, values);
    forall x { MultisetMember(Sorted(values), values, x); }
  }

  // ----- Histories: the root is a canonical commitment to the members -----

  datatype Op = Put(value: Json) | Drop(value: Json)

  function Run(ops: seq<Op>): seq<Text>
  {
    if |ops| == 0 then []
    else
      var before := Run(ops[..|ops| - 1]);
      match ops[|ops| - 1]
      case Put(v) => Add(before, NormalizeLeaf(v))
      case Drop(v) => Remove(before, NormalizeLeaf(v))
  }

  /** A text is a member exactly when the last operation that named it inserted it. */
  predicate Present(ops: seq<Op>, t: Text)
  {
    if |ops| == 0 then false
    else
      var last := ops[|ops| - 1];
      if NormalizeLeaf(last.value) == t then last.Put? else Present(ops[..|ops| - 1], t)
  }

  lemma {:induction false} RunMembers(ops: seq<Op>)
    ensures Distinct(Run(ops))
    ensures forall t :: t in Run(ops) <==> Present(ops, t)
  {
    if |ops| > 0 {
      var before := ops[..|ops| - 1];
      RunMembers(before);
      var t := NormalizeLeaf(ops[|ops| - 1].value);
      RemoveDistinct(Run(before), t);
      RemoveMembers(Run(before), t);
    }
  }

  function SetRoot(h: HashFn, values: seq<Text>): Text
  {
    MerkleRoot(h, Sorted(values))
  }

  /** Two sets with the same members have the same root, however they were built; and two sets with the
      same root have the same members, unless two of the texts hashed for the roots collide. */
  lemma SetRootCanonical(h: HashFn, a: seq<Text>, b: seq<Text>)
    requires Distinct(a) && Distinct(b)
    ensures (forall t :: t in a <==> t in b) ==> SetRoot(h, a) == SetRoot(h, b)
    ensures SetRoot(h, a) == SetRoot(h, b) && CollisionFree(h, RootTexts(h, Sorted(a)) + RootTexts(h, Sorted(b)))
      ==> forall t :: t in a <==> t in b
  {
    SortedValues(a);
    SortedValues(b);
    if forall t :: t in a <==> t in b {
      StrictlySortedUnique(Self, Sorted(a), Sorted(b));
    }
    if SetRoot(h, a) == SetRoot(h, b) && CollisionFree(h, RootTexts(h, Sorted(a)) + RootTexts(h, Sorted(b))) {
      RootCommits(h, Sorted(a), Sorted(b));
    }
  }

  /** The same, over any two histories of insertions and deletions. */
  lemma HistoryIndependence(h: HashFn, p: seq<Op>, q: seq<Op>)
    ensures (forall t :: Present(p, t) <==> Present(q, t)) ==> SetRoot(h, Run(p)) == SetRoot(h, Run(q))
    ensures SetRoot(h, Run(p)) == SetRoot(h, Run(q))
      && CollisionFree(h, RootTexts(h, Sorted(Run(p))) + RootTexts(h, Sorted(Run(q))))
      ==> forall t :: Present(p, t) <==> Present(q, t)
  {
    RunMembers(p);
    RunMembers(q);
    SetRootCanonical(h, Run(p), Run(q));
  }

  // ----- Non-membership -----

  datatype NonMembershipProof = NonMembershipProof(
    value: Text, size: int, root: Text,
    predecessor: Option<MembershipProof>, successor: Option<MembershipProof>)

  /** How many values of a sorted list come before a text. */
  function Rank(values: seq<Text>, value: Text): (r: nat)
    ensures r <= |values|
  {
    if |values| > 0 && Less(values[0], value) then 1 + Rank(values[1..], value) else 0
  }

  lemma {:induction false} RankSplits(values: seq<Text>, value: Text, i: nat)
    requires StrictlySorted(Self, values) && i < |values|
    ensures Less(values[i], value) <==> i < Rank(values, value)
  {
    if Less(values[0], value) {
      if i > 0 { RankSplits(values[1..], value, i - 1); }
    } else if i > 0 {
      if Less(values[i], value) { LessTransitive(Self(values[0]), Self(values[i]), value); }
    }
  }

  /** `lowerBound`: binary search. */
  method LowerBound(values: seq<Text>, value: Text) returns (low: nat)
    requires StrictlySorted(Self, values)
    ensures low == Rank(values, value)
  {
    low := 0;
    var high := |values|;
    while low < high
      invariant 0 <= low <= Rank(values, value) <= high <= |values|
    {
      var mid := (low + high) / 2;
      RankSplits(values, value, mid);
      if Less(values[mid], value) { low := mid + 1; } else { high := mid; }
    }
  }

  function NonProofFor(h: HashFn, values: seq<Text>, value: Text): NonMembershipProof
  {
    var at := Rank(values, value);
    NonMembershipProof(
      value, |values|, MerkleRoot(h, values),
      if at > 0 then Some(ProofFor(h, values, at - 1)) else None,
      if at < |values| then Some(ProofFor(h, values, at)) else None)
  }

  /** `MerkleSet.verifyNonMembership`. */
  predicate VerifyNonMembership(h: HashFn, p: NonMembershipProof, expectedRoot: Text)
  {
    if p.size < 0 || p.root != expectedRoot then false
    else if p.size == 0 then p.predecessor.None? && p.successor.None? && p.root == EmptyRoot(h)
    else
      && !(p.predecessor.None? && p.successor.None?)
      && (p.predecessor.Some? ==>
            MembershipVerifies(h, p.predecessor.value, p.root) && Less(p.predecessor.value.value, p.value))
      && (p.successor.Some? ==>
            MembershipVerifies(h, p.successor.value, p.root) && Less(p.value, p.successor.value.value))
      && if p.predecessor.Some? && p.successor.Some? then
           && p.predecessor.value.index + 1 == p.successor.value.index
           && p.predecessor.value.size == p.size && p.successor.value.size == p.size
         else if p.predecessor.None? then p.successor.value.index == 0 && p.successor.value.size == p.size
         else p.predecessor.value.index == p.size - 1 && p.predecessor.value.size == p.size
  }

  /** What the checker asks of a record, neighbour by neighbour. */
  lemma RecordExactly(h: HashFn, p: NonMembershipProof, root: Text)
    ensures VerifyNonMembership(h, p, root) <==>
      && p.size >= 0 && p.root == root
      && (p.size == 0 ==>
            p.predecessor == None && p.successor == None && root == Lit("sha256:") + h(Lit("enigma.merkle.empty.v1")))
      && (p.size > 0 ==> p.predecessor.Some? || p.successor.Some?)
      && (forall m :: p.predecessor == Some(m) ==>
            && MembershipVerifies(h, m, root) && Less(m.value, p.value) && m.size == p.size
            && m.index + 1 == if p.successor.Some? then p.successor.value.index else p.size)
      && (forall m :: p.successor == Some(m) ==>
            && MembershipVerifies(h, m, root) && Less(p.value, m.value) && m.size == p.size
            && (p.predecessor.None? ==> m.index == 0))
  {
    hide MembershipVerifies, Less;
  }

  /** The proof built for an absent value of any set verifies: empty set, before the first, between, after the last. */
  lemma NonMembershipComplete(h: HashFn, values: seq<Text>, value: Text)
    requires StrictlySorted(Self, values) && value !in values
    ensures VerifyNonMembership(h, NonProofFor(h, values, value), MerkleRoot(h, values))
  {
    var at := Rank(values, value);
    if at > 0 {
      MembershipComplete(h, values, at - 1);
      RankSplits(values, value, at - 1);
    }
    if at < |values| {
      MembershipComplete(h, values, at);
      RankSplits(values, value, at);
      LessTotal(values[at], value);
    }
  }

  /** A neighbour proof claims the index and size that its value really has in the list. */
  ghost predicate ClaimsTruePosition(p: MembershipProof, values: seq<Text>)
  {
    p.size == |values| && (p.value in values ==> 0 <= p.index < |values| && values[p.index] == p.value)
  }

  ghost function NonMembershipTexts(h: HashFn, p: NonMembershipProof): set<Text>
  {
    {EMPTY_TEXT}
    + (if p.predecessor.Some? && SiblingsOk(p.predecessor.value.siblings)
       then ClimbTexts(h, p.predecessor.value.value, p.predecessor.value.siblings) else {})
    + (if p.successor.Some? && SiblingsOk(p.successor.value.siblings)
       then ClimbTexts(h, p.successor.value.value, p.successor.value.siblings) else {})
  }

  lemma SortedPosition(values: seq<Text>, value: Text, i: nat)
    requires StrictlySorted(Self, values) && i < |values|
    ensures Less(value, values[i]) ==> forall j :: i <= j < |values| ==> values[j] != value
    ensures Less(values[i], value) ==> forall j :: 0 <= j <= i ==> values[j] != value
  {
    forall j | 0 <= j < |values| && values[j] == value
      ensures Less(value, values[i]) ==> j < i
      ensures Less(values[i], value) ==> i < j
    {
      if i <= j && Less(value, values[i]) {
        if i < j { assert Less(Self(values[i]), Self(values[j])); LessAsymmetric(values[i], values[j]); }
        else { LessIrreflexive(value); }
      }
      if j <= i && Less(values[i], value) {
        if j < i { assert Less(Self(values[j]), Self(values[i])); LessAsymmetric(values[j], values[i]); }
        else { LessIrreflexive(value); }
      }
    }
  }

  /** A verified non-membership proof whose neighbours claim true positions proves absence. */
  lemma NonMembershipSound(h: HashFn, values: seq<Text>, p: NonMembershipProof)
    requires StrictlySorted(Self, values)
    requires VerifyNonMembership(h, p, MerkleRoot(h, values))
    requires p.predecessor.Some? ==> ClaimsTruePosition(p.predecessor.value, values)
    requires p.successor.Some? ==> ClaimsTruePosition(p.successor.value, values)
    requires CollisionFree(h, RootTexts(h, values) + NonMembershipTexts(h, p))
    ensures p.value !in values
  {
    if p.size == 0 {
      if |values| > 0 { EmptyRootApart(h, values); }
    } else {
      if p.predecessor.Some? {
        MembershipSound(h, values, p.predecessor.value);
        SortedPosition(values, p.value, p.predecessor.value.index);
      }
      if p.successor.Some? {
        MembershipSound(h, values, p.successor.value);
        SortedPosition(values, p.value, p.successor.value.index);
      }
    }
  }

  /** The path of each neighbour has the shape of the index and size that it claims, which a checker can see. */
  ghost predicate PathsMatch(p: NonMembershipProof)
  {
    && (p.predecessor.Some? ==> PathMatches(p.predecessor.value))
    && (p.successor.Some? ==> PathMatches(p.successor.value))
  }

  ghost predicate PathMatches(m: MembershipProof)
  {
    0 <= m.index < m.size && HasShape(m.siblings, PathShape(m.index, m.size))
  }

  /** The texts hashed for a neighbour are among those hashed for the proof. */
  lemma NeighbourTexts(h: HashFn, values: seq<Text>, p: NonMembershipProof, m: MembershipProof)
    requires p.predecessor == Some(m) || p.successor == Some(m)
    requires SiblingsOk(m.siblings) && CollisionFree(h, RootTexts(h, values) + NonMembershipTexts(h, p))
    ensures CollisionFree(h, RootTexts(h, values) + ClimbTexts(h, m.value, m.siblings))
  {
    hide RootTexts, ClimbTexts;
    CollisionFreeSubset(h, RootTexts(h, values) + ClimbTexts(h, m.value, m.siblings),
      RootTexts(h, values) + NonMembershipTexts(h, p));
  }

  /** Absence in sorted values, from a value below and a value above that leave no room between them. */
  lemma NoRoom(values: seq<Text>, value: Text, k: nat)
    requires StrictlySorted(Self, values) && k <= |values|
    requires k > 0 ==> Less(values[k - 1], value)
    requires k < |values| ==> Less(value, values[k])
    ensures value !in values
  {
    if k > 0 { SortedPosition(values, value, k - 1); }
    if k < |values| { SortedPosition(values, value, k); }
  }

  /** From the root alone: a verified proof whose paths have the shapes that it claims proves absence, whatever the
      size of the set.  Nothing is assumed about the claimed size or indexes. */
  lemma NonMembershipSoundByShape(h: HashFn, values: seq<Text>, p: NonMembershipProof)
    requires StrictlySorted(Self, values)
    requires VerifyNonMembership(h, p, MerkleRoot(h, values)) && PathsMatch(p)
    requires CollisionFree(h, RootTexts(h, values) + NonMembershipTexts(h, p))
    ensures p.value !in values
  {
    hide RootTexts, NonMembershipTexts, ClimbTexts, HasShape, PathShape, StrictlySorted, MerkleRoot;
    if p.size == 0 {
      NonMembershipSound(h, values, p);
    } else {
      if p.predecessor.Some? { NeighbourTexts(h, values, p, p.predecessor.value); }
      if p.successor.Some? { NeighbourTexts(h, values, p, p.successor.value); }
      if p.predecessor.None? {
        FirstByShape(h, values, p.successor.value);
        NoRoom(values, p.value, 0);
      } else if p.successor.None? {
        LastByShape(h, values, p.predecessor.value);
        NoRoom(values, p.value, |values|);
      } else {
        var k := NeighboursByShape(h, values, p.predecessor.value, p.successor.value);
        NoRoom(values, p.value, k + 1);
      }
    }
  }

  // ----- Exactly when a verified record proves absence -----

  /** A record verifies against the root of a list, and no two of the hashed texts collide. */
  ghost predicate VerifiesCleanly(h: HashFn, values: seq<Text>, p: NonMembershipProof)
  {
    && VerifyNonMembership(h, p, MerkleRoot(h, values))
    && CollisionFree(h, RootTexts(h, values) + NonMembershipTexts(h, p))
  }

  /** Every record that verifies proves absence, up to a collision. */
  ghost predicate RecordsProveAbsence(h: HashFn, values: seq<Text>)
  {
    forall p :: VerifiesCleanly(h, values, p) ==> p.value !in values
  }

  /** A record for a member: its neighbour is another member, whose built proof is given the position 0 of 1. */
  ghost function MisplacedRecord(h: HashFn, values: seq<Text>, k: nat): NonMembershipProof
    requires k < |values| && |values| > 1
  {
    var other := ProofFor(h, values, if k == 0 then 1 else 0).(index := 0, size := 1);
    NonMembershipProof(values[k], 1, MerkleRoot(h, values),
      if k == 0 then None else Some(other), if k == 0 then Some(other) else None)
  }

  /** The checker takes the claimed position as it is, so every member of every set of two or more values has a
      record that verifies. */
  lemma MisplacedRecordVerifies(h: HashFn, values: seq<Text>, k: nat)
    requires StrictlySorted(Self, values) && k < |values| && |values| > 1
    ensures VerifyNonMembership(h, MisplacedRecord(h, values, k), MerkleRoot(h, values))
    ensures NonMembershipTexts(h, MisplacedRecord(h, values, k)) <= RootTexts(h, values) + {EMPTY_TEXT}
  {
    hide RootTexts, ClimbTexts, MerkleRoot, Climb;
    var j := if k == 0 then 1 else 0;
    MembershipComplete(h, values, j);
    ProofTexts(h, values, j);
    assert Less(Self(values[0]), Self(values[if k == 0 then 1 else k]));
  }

  lemma SmallSetSound(h: HashFn, values: seq<Text>, p: NonMembershipProof)
    requires |values| <= 1 && VerifyNonMembership(h, p, MerkleRoot(h, values))
    requires CollisionFree(h, RootTexts(h, values) + NonMembershipTexts(h, p))
    ensures p.value !in values
  {
    hide RootTexts, NonMembershipTexts, ClimbTexts, MerkleRoot, MembershipVerifies;
    LessIrreflexive(p.value);
    if |values| == 1 {
      if p.size == 0 {
        NoEmptyRoot(h, values, p);
      } else if p.predecessor.Some? {
        NeighbourMember(h, values, p, p.predecessor.value);
      } else {
        NeighbourMember(h, values, p, p.successor.value);
      }
    }
  }

  lemma NoEmptyRoot(h: HashFn, values: seq<Text>, p: NonMembershipProof)
    requires |values| > 0 && CollisionFree(h, RootTexts(h, values) + NonMembershipTexts(h, p))
    ensures MerkleRoot(h, values) != EmptyRoot(h)
  {
    hide RootTexts, ClimbTexts, MerkleRoot;
    CollisionFreeSubset(h, RootTexts(h, values) + {EMPTY_TEXT}, RootTexts(h, values) + NonMembershipTexts(h, p));
    EmptyRootApart(h, values);
  }

  lemma NeighbourMember(h: HashFn, values: seq<Text>, p: NonMembershipProof, m: MembershipProof)
    requires p.predecessor == Some(m) || p.successor == Some(m)
    requires MembershipVerifies(h, m, MerkleRoot(h, values))
    requires CollisionFree(h, RootTexts(h, values) + NonMembershipTexts(h, p))
    ensures m.value in values
  {
    hide RootTexts, NonMembershipTexts, ClimbTexts, MerkleRoot;
    NeighbourTexts(h, values, p, m);
    MembershipSound(h, values, m);
  }

  /** Verified records prove absence exactly for sets of at most one value. */
  lemma RecordsProveAbsenceExactly(h: HashFn, values: seq<Text>)
    requires StrictlySorted(Self, values) && CollisionFree(h, RootTexts(h, values) + {EMPTY_TEXT})
    ensures RecordsProveAbsence(h, values) <==> |values| <= 1
  {
    hide RootTexts, NonMembershipTexts, MerkleRoot, VerifyNonMembership, StrictlySorted;
    if |values| <= 1 {
      forall p | VerifiesCleanly(h, values, p) ensures p.value !in values { SmallSetSound(h, values, p); }
    } else {
      var p := MisplacedRecord(h, values, 0);
      MisplacedRecordVerifies(h, values, 0);
      CollisionFreeSubset(h, RootTexts(h, values) + NonMembershipTexts(h, p), RootTexts(h, values) + {EMPTY_TEXT});
      assert VerifiesCleanly(h, values, p) && p.value in values;
    }
  }

  lemma HonestProofsMatch(h: HashFn, values: seq<Text>, value: Text)
    ensures NonProofFor(h, values, value).size == |values|
    ensures PathsMatch(NonProofFor(h, values, value))
  {
    var at := Rank(values, value);
    if at > 0 { SiblingsFromShape(h, LeafLevel(h, values), at - 1); }
    if at < |values| { SiblingsFromShape(h, LeafLevel(h, values), at); }
  }

  lemma NonProofParts(h: HashFn, values: seq<Text>, value: Text, p: NonMembershipProof)
    requires var at := Rank(values, value);
      && p.value == value && p.size == |values| && p.root == MerkleRoot(h, values)
      && p.predecessor == (if at > 0 then Some(ProofFor(h, values, at - 1)) else None)
      && p.successor == (if at < |values| then Some(ProofFor(h, values, at)) else None)
    ensures p == NonProofFor(h, values, value)
  {
  }

  // ----- The class -----

  class MerkleSet {
    const h: HashFn
    var values: seq<Text>

    ghost predicate Valid()
      reads this
    {
      Distinct(values)
    }

    constructor (h: HashFn, initial: seq<Json>)
      ensures Valid() && this.h == h
      ensures values == AddAll(Map(NormalizeLeaf, initial))
    {
      this.h := h;
      values := [];
      new;
      ghost var leaves := Map(NormalizeLeaf, initial);
      for i := 0 to |initial|
        invariant Valid() && values == AddAll(leaves[..i]) && this.h == h
      {
        assert leaves[..i + 1][..i] == leaves[..i];
        Insert(initial[i]);
      }
      assert leaves[..|initial|] == leaves;
    }

    /** `insert`. */
    method Insert(value: Json)
      requires Valid()
      modifies this`values
      ensures Valid() && values == Add(old(values), NormalizeLeaf(value))
      ensures forall t :: t in values <==> t in old(values) || t == NormalizeLeaf(value)
      ensures NormalizeLeaf(value) in old(values) ==> values == old(values)
    {
      values := Add(values, NormalizeLeaf(value));
    }

    /** `delete`: says whether the value was a member. */
    method Delete(value: Json) returns (deleted: bool)
      requires Valid()
      modifies this`values
      ensures Valid() && values == Remove(old(values), NormalizeLeaf(value))
      ensures deleted <==> NormalizeLeaf(value) in old(values)
      ensures forall t :: t in values <==> t in old(values) && t != NormalizeLeaf(value)
    {
      RemoveDistinct(values, NormalizeLeaf(value));
      RemoveMembers(values, NormalizeLeaf(value));
      deleted := NormalizeLeaf(value) in values;
      values := Remove(values, NormalizeLeaf(value));
    }

    /** `root`. */
    method Root() returns (root: Text)
      requires Valid()
      ensures root == SetRoot(h, values)
    {
      root := ComputeMerkleRoot(h, Sorted(values));
    }

    /** `proveMembership`: throws for a value that is not a member. */
    method ProveMembership(value: Json) returns (r: Result<MembershipProof>)
      requires Valid()
      ensures r.Ok? <==> NormalizeLeaf(value) in values
      ensures r.Ok? ==> r.value.value == NormalizeLeaf(value) && MembershipVerifies(h, r.value, SetRoot(h, values))
    {
      var leaf := NormalizeLeaf(value);
      var sorted := Sorted(values);
      SortedValues(values);
      var index := 0;
      while index < |sorted| && sorted[index] != leaf
        invariant 0 <= index <= |sorted| && leaf !in sorted[..index]
      {
        assert sorted[..index + 1] == sorted[..index] + [sorted[index]];
        index := index + 1;
      }
      if index == |sorted| {
        assert sorted[..index] == sorted;
        return Throws;
      }
      var proof := BuildMembershipProof(h, sorted, index);
      MembershipComplete(h, sorted, index);
      r := Ok(proof);
    }

    /** `proveNonMembership`: throws for a member. */
    method ProveNonMembership(value: Json) returns (r: Result<NonMembershipProof>)
      requires Valid()
      ensures r.Ok? <==> NormalizeLeaf(value) !in values
      ensures r.Ok? ==> r.value.value == NormalizeLeaf(value) && VerifyNonMembership(h, r.value, SetRoot(h, values))
      ensures r.Ok? ==> r.value.size == |values| && PathsMatch(r.value)
    {
      hide NonProofFor, VerifyNonMembership, MembershipVerifies, PathsMatch, StrictlySorted, Sort, Distinct;
      var leaf := NormalizeLeaf(value);
      var sorted := Sorted(values);
      SortedValues(values);
      if leaf in sorted { return Throws; }
      var insertion := LowerBound(sorted, leaf);
      var predecessor: Option<MembershipProof>, successor: Option<MembershipProof> := None, None;
      if insertion > 0 {
        var m := BuildMembershipProof(h, sorted, insertion - 1);
        predecessor := Some(m);
      }
      if insertion < |sorted| {
        var m := BuildMembershipProof(h, sorted, insertion);
        successor := Some(m);
      }
      var root := ComputeMerkleRoot(h, sorted);
      r := Ok(NonMembershipProof(leaf, |sorted|, root, predecessor, successor));
      NonProofParts(h, sorted, leaf, r.value);
      NonMembershipComplete(h, sorted, leaf);
      HonestProofsMatch(h, sorted, leaf);
    }
  }
}
