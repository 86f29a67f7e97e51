/** The Merkle tree over a sorted list of texts, with an odd last node promoted to the next level. */
module Merkle {
  import opened JsText
  import opened Hashing

  const EMPTY_TEXT: Text := Lit("enigma.merkle.empty.v1")
  const LEAF_PREFIX: Text := Lit("enigma.merkle.leaf.v1") + [0]
  const NODE_PREFIX: Text := Lit("enigma.merkle.node.v1") + [0]

  function LeafText(value: Text): Text { LEAF_PREFIX + value }
  function NodeText(left: Digest, right: Digest): Text { NODE_PREFIX + (left + ([0] + right)) }

  function LeafHash(h: HashFn, value: Text): Digest { h(LeafText(value)) }
  function NodeHash(h: HashFn, left: Digest, right: Digest): Digest { h(NodeText(left, right)) }
  function EmptyRoot(h: HashFn): Text { Prefixed(h(EMPTY_TEXT)) }

  /** The three kinds of hashed text never coincide. */
  lemma DomainSeparation(value: Text, left: Digest, right: Digest)
    ensures LeafText(value) != NodeText(left, right)
    ensures LeafText(value) != EMPTY_TEXT && NodeText(left, right) != EMPTY_TEXT
  {
    assert LeafText(value)[14] == 108;
    assert NodeText(left, right)[14] == 110;
    assert EMPTY_TEXT[14] == 101;
  }

  lemma LeafTextInjective(a: Text, b: Text)
    requires LeafText(a) == LeafText(b)
    ensures a == b
  {
    AppendInjective(LEAF_PREFIX, LEAF_PREFIX, a, b);
  }

  lemma NodeTextInjective(a: Digest, b: Digest, c: Digest, d: Digest)
    requires NodeText(a, b) == NodeText(c, d)
    ensures a == c && b == d
  {
    AppendInjective(NODE_PREFIX, NODE_PREFIX, a + ([0] + b), c + ([0] + d));
    AppendInjective(a, c, [0] + b, [0] + d);
    AppendInjective([0], [0], b, d);
  }

  // ----- Levels -----

  function LeafLevel(h: HashFn, values: seq<Text>): (level: seq<Digest>)
    ensures |level| == |values|
  {
    seq(|values|, i requires 0 <= i < |values| => LeafHash(h, values[i]))
  }

  function NextLevel(h: HashFn, level: seq<Digest>): (next: seq<Digest>)
    ensures |next| == (|level| + 1) / 2
  {
    if |level| < 2 then level
    else [NodeHash(h, level[0], level[1])] + NextLevel(h, level[2..])
  }

  function LevelRoot(h: HashFn, level: seq<Digest>): Digest
    requires |level| > 0
    decreases |level|
  {
    if |level| == 1 then level[0] else LevelRoot(h, NextLevel(h, level))
  }

  function MerkleRoot(h: HashFn, values: seq<Text>): Text
  {
    if |values| == 0 then EmptyRoot(h) else Prefixed(LevelRoot(h, LeafLevel(h, values)))
  }

  lemma {:induction false} NextLevelAt(h: HashFn, level: seq<Digest>, i: nat)
    requires 2 * i < |level|
    ensures i < |NextLevel(h, level)|
    ensures NextLevel(h, level)[i]
         == if 2 * i + 1 < |level| then NodeHash(h, level[2 * i], level[2 * i + 1]) else level[2 * i]
  {
    if i > 0 { NextLevelAt(h, level[2..], i - 1); }
  }

  /** `nextMerkleLevel`. */
  method ComputeNextLevel(h: HashFn, level: seq<Digest>) returns (next: seq<Digest>)
    ensures next == NextLevel(h, level)
  {
    next := [];
    var index := 0;
    while index < |level|
      invariant 0 <= index <= |level| + 1
      invariant |next| == index / 2 && index % 2 == 0
      invariant forall i :: 0 <= i < |next| ==> next[i] == NextLevel(h, level)[i]
    {
      NextLevelAt(h, level, index / 2);
      next := next + [if index + 1 < |level| then NodeHash(h, level[index], level[index + 1]) else level[index]];
      index := index + 2;
    }
  }

  /** `merkleRoot`. */
  method ComputeMerkleRoot(h: HashFn, values: seq<Text>) returns (root: Text)
    ensures root == MerkleRoot(h, values)
  {
    if |values| == 0 { return EmptyRoot(h); }
    var level := LeafLevel(h, values);
    while |level| > 1
      invariant |level| > 0 && LevelRoot(h, level) == LevelRoot(h, LeafLevel(h, values))
      decreases |level|
    {
      level := ComputeNextLevel(h, level);
    }
    root := Prefixed(level[0]);
  }

  // ----- The tree whose digests the levels hold -----

  datatype Tree = Leaf(value: Text) | Node(left: Tree, right: Tree)

  ghost function TreeDigest(h: HashFn, t: Tree): Digest
  {
    match t
    case Leaf(v) => LeafHash(h, v)
    case Node(l, r) => NodeHash(h, TreeDigest(h, l), TreeDigest(h, r))
  }

  ghost function Leaves(t: Tree): seq<Text>
  {
    match t
    case Leaf(v) => [v]
    case Node(l, r) => Leaves(l) + Leaves(r)
  }

  /** The texts hashed when the digest of a tree is computed. */
  ghost function TreeTexts(h: HashFn, t: Tree): set<Text>
  {
    match t
    case Leaf(v) => {LeafText(v)}
    case Node(l, r) => {NodeText(TreeDigest(h, l), TreeDigest(h, r))} + TreeTexts(h, l) + TreeTexts(h, r)
  }

  ghost function Digests(h: HashFn, ts: seq<Tree>): (r: seq<Digest>)
    ensures |r| == |ts|
  {
    seq(|ts|, i requires 0 <= i < |ts| => TreeDigest(h, ts[i]))
  }

  ghost function AllLeaves(ts: seq<Tree>): seq<Text>
  {
    if |ts| == 0 then [] else Leaves(ts[0]) + AllLeaves(ts[1..])
  }

  ghost function NextTrees(ts: seq<Tree>): (next: seq<Tree>)
    ensures |next| == (|ts| + 1) / 2
  {
    if |ts| < 2 then ts else [Node(ts[0], ts[1])] + NextTrees(ts[2..])
  }

  ghost function RootTree(ts: seq<Tree>): Tree
    requires |ts| > 0
    decreases |ts|
  {
    if |ts| == 1 then ts[0] else RootTree(NextTrees(ts))
  }

  ghost function LeafTrees(values: seq<Text>): (ts: seq<Tree>)
    ensures |ts| == |values|
  {
    seq(|values|, i requires 0 <= i < |values| => Leaf(values[i]))
  }

  ghost function TreeOf(values: seq<Text>): Tree
    requires |values| > 0
  {
    RootTree(LeafTrees(values))
  }

  lemma {:induction false} NextTreesDigests(h: HashFn, ts: seq<Tree>)
    ensures Digests(h, NextTrees(ts)) == NextLevel(h, Digests(h, ts))
  {
    if |ts| >= 2 {
      NextTreesDigests(h, ts[2..]);
      assert Digests(h, ts)[2..] == Digests(h, ts[2..]);
      assert Digests(h, NextTrees(ts)) == [TreeDigest(h, Node(ts[0], ts[1]))] + Digests(h, NextTrees(ts[2..]));
    }
  }

  lemma {:induction false} NextTreesLeaves(ts: seq<Tree>)
    ensures AllLeaves(NextTrees(ts)) == AllLeaves(ts)
  {
    if |ts| >= 2 {
      NextTreesLeaves(ts[2..]);
      assert NextTrees(ts)[1..] == NextTrees(ts[2..]);
      assert ts[1..][1..] == ts[2..];
      assert AllLeaves(ts) == Leaves(ts[0]) + (Leaves(ts[1]) + AllLeaves(ts[2..]));
    }
  }

  lemma {:induction false} RootTreeCorrect(h: HashFn, ts: seq<Tree>)
    requires |ts| > 0
    ensures TreeDigest(h, RootTree(ts)) == LevelRoot(h, Digests(h, ts))
    ensures Leaves(RootTree(ts)) == AllLeaves(ts)
    decreases |ts|
  {
    if |ts| == 1 {
      assert AllLeaves(ts) == Leaves(ts[0]) + [];
    } else {
      NextTreesDigests(h, ts);
      NextTreesLeaves(ts);
      RootTreeCorrect(h, NextTrees(ts));
    }
  }

  lemma {:induction false} LeafTreesLeaves(values: seq<Text>)
    ensures AllLeaves(LeafTrees(values)) == values
  {
    if |values| > 0 {
      LeafTreesLeaves(values[1..]);
      assert LeafTrees(values)[1..] == LeafTrees(values[1..]);
    }
  }

  /** The level-by-level root is the digest of one tree whose leaves are the values in order. */
  lemma TreeOfCorrect(h: HashFn, values: seq<Text>)
    requires |values| > 0
    ensures MerkleRoot(h, values) == Prefixed(TreeDigest(h, TreeOf(values)))
    ensures Leaves(TreeOf(values)) == values
  {
    RootTreeCorrect(h, LeafTrees(values));
    LeafTreesLeaves(values);
    assert Digests(h, LeafTrees(values)) == LeafLevel(h, values);
  }

  // ----- The root commits to the values -----

  /** The texts hashed by `merkleRoot`. */
  ghost function RootTexts(h: HashFn, values: seq<Text>): set<Text>
  {
    if |values| == 0 then {EMPTY_TEXT} else TreeTexts(h, TreeOf(values))
  }

  lemma {:induction false} TreeDigestInjective(h: HashFn, t: Tree, u: Tree)
    requires CollisionFree(h, TreeTexts(h, t) + TreeTexts(h, u))
    requires TreeDigest(h, t) == TreeDigest(h, u)
    ensures t == u
  {
    match t
    case Leaf(v) =>
      if u.Node? { DomainSeparation(v, TreeDigest(h, u.left), TreeDigest(h, u.right)); }
      else { LeafTextInjective(v, u.value); }
    case Node(l, r) =>
      if u.Leaf? { DomainSeparation(u.value, TreeDigest(h, l), TreeDigest(h, r)); }
      else {
        NodeTextInjective(TreeDigest(h, l), TreeDigest(h, r), TreeDigest(h, u.left), TreeDigest(h, u.right));
        TreeDigestInjective(h, l, u.left);
        TreeDigestInjective(h, r, u.right);
      }
  }

  lemma EmptyRootApart(h: HashFn, values: seq<Text>)
    requires |values| > 0 && CollisionFree(h, RootTexts(h, values) + {EMPTY_TEXT})
    ensures MerkleRoot(h, values) != EmptyRoot(h)
  {
    var t := TreeOf(values);
    TreeOfCorrect(h, values);
    if MerkleRoot(h, values) == EmptyRoot(h) {
      PrefixedInjective(TreeDigest(h, t), h(EMPTY_TEXT));
      match t
      case Leaf(v) => DomainSeparation(v, h([]), h([]));
      case Node(l, r) => DomainSeparation([], TreeDigest(h, l), TreeDigest(h, r));
    }
  }

  /** Equal roots mean equal lists of values, unless two of the hashed texts collide. */
  lemma RootCommits(h: HashFn, a: seq<Text>, b: seq<Text>)
    requires CollisionFree(h, RootTexts(h, a) + RootTexts(h, b))
    requires MerkleRoot(h, a) == MerkleRoot(h, b)
    ensures a == b
  {
    if |a| == 0 || |b| == 0 {
      if |a| > 0 { EmptyRootApart(h, a); }
      if |b| > 0 { EmptyRootApart(h, b); }
    } else {
      TreeOfCorrect(h, a);
      TreeOfCorrect(h, b);
      PrefixedInjective(TreeDigest(h, TreeOf(a)), TreeDigest(h, TreeOf(b)));
      TreeDigestInjective(h, TreeOf(a), TreeOf(b));
    }
  }

  // ----- Membership proofs -----

  datatype Position = Left | Right | Other

  datatype Sibling = Sibling(position: Position, hash: Text)

  datatype MembershipProof = MembershipProof(value: Text, index: int, size: int, root: Text, siblings: seq<Sibling>)

  predicate SiblingOk(s: Sibling)
  {
    IsDigest(s.hash) && s.position != Other
  }

  function Combine(h: HashFn, current: Digest, s: Sibling): Digest
    requires SiblingOk(s)
  {
    if s.position == Left then NodeHash(h, s.hash, current) else NodeHash(h, current, s.hash)
  }

  predicate SiblingsOk(siblings: seq<Sibling>)
  {
    forall i :: 0 <= i < |siblings| ==> SiblingOk(siblings[i])
  }

  /** The digest reached from a starting digest by combining it with each sibling in turn. */
  function Climb(h: HashFn, start: Digest, siblings: seq<Sibling>): Digest
    requires SiblingsOk(siblings)
  {
    if |siblings| == 0 then start
    else
      var n := |siblings| - 1;
      Combine(h, Climb(h, start, siblings[..n]), siblings[n])
  }

  predicate MembershipVerifies(h: HashFn, p: MembershipProof, expectedRoot: Text)
  {
    && 0 <= p.index < p.size
    && SiblingsOk(p.siblings)
    && Prefixed(Climb(h, LeafHash(h, p.value), p.siblings)) == p.root == expectedRoot
  }

  /** A proof that verifies claims a position below its size, states the expected root, and has only left and right
      siblings, which are digests. */
  lemma VerifiedProof(h: HashFn, p: MembershipProof, expectedRoot: Text)
    requires MembershipVerifies(h, p, expectedRoot)
    ensures 0 <= p.index < p.size && p.root == expectedRoot
    ensures forall s :: s in p.siblings ==> s.position in {Left, Right} && |s.hash| == 64 && IsLowerHex(s.hash)
  {
    forall s | s in p.siblings ensures s.position in {Left, Right} && |s.hash| == 64 && IsLowerHex(s.hash) {
      var i :| 0 <= i < |p.siblings| && p.siblings[i] == s;
      assert SiblingOk(p.siblings[i]);
    }
  }

  /** `MerkleSet.verifyMembership`. */
  method VerifyMembership(h: HashFn, p: MembershipProof, expectedRoot: Text) returns (ok: bool)
    ensures ok <==> MembershipVerifies(h, p, expectedRoot)
  {
    if p.index < 0 || p.size <= p.index { return false; }
    var current := LeafHash(h, p.value);
    for i := 0 to |p.siblings|
      invariant SiblingsOk(p.siblings[..i])
      invariant current == Climb(h, LeafHash(h, p.value), p.siblings[..i])
    {
      var s := p.siblings[i];
      if !SiblingOk(s) { return false; }
      current := Combine(h, current, s);
      assert p.siblings[..i + 1][..i] == p.siblings[..i];
    }
    assert p.siblings[..|p.siblings|] == p.siblings;
    ok := Prefixed(current) == p.root && Prefixed(current) == expectedRoot;
  }

  /** The siblings met on the way from one position of a level to the root. */
  function SiblingsFrom(h: HashFn, level: seq<Digest>, cursor: nat): (r: seq<Sibling>)
    requires cursor < |level|
    ensures SiblingsOk(r)
    decreases |level|
  {
    if |level| == 1 then []
    else SiblingAt(level, cursor) + SiblingsFrom(h, NextLevel(h, level), cursor / 2)
  }

  /** The sibling of one node, absent for the odd last node. */
  function SiblingAt(level: seq<Digest>, cursor: nat): (r: seq<Sibling>)
    requires cursor < |level|
    ensures SiblingsOk(r)
  {
    var other := if cursor % 2 == 0 then cursor + 1 else cursor - 1;
    if other < |level| then [Sibling(if other < cursor then Left else Right, level[other])] else []
  }

  function ProofFor(h: HashFn, values: seq<Text>, index: nat): MembershipProof
    requires index < |values|
  {
    MembershipProof(values[index], index, |values|, MerkleRoot(h, values),
                    SiblingsFrom(h, LeafLevel(h, values), index))
  }

  lemma SiblingsStep(h: HashFn, level: seq<Digest>, cursor: nat, before: seq<Sibling>)
    requires cursor < |level| && |level| > 1
    ensures before + SiblingAt(level, cursor) + SiblingsFrom(h, NextLevel(h, level), cursor / 2)
         == before + SiblingsFrom(h, level, cursor)
  {
  }

  /** `membershipProof`. */
  method BuildMembershipProof(h: HashFn, values: seq<Text>, index: nat) returns (p: MembershipProof)
    requires index < |values|
    ensures p == ProofFor(h, values, index)
  {
    var siblings := [];
    var level := LeafLevel(h, values);
    var cursor := index;
    while |level| > 1
      invariant 0 <= cursor < |level|
      invariant siblings + SiblingsFrom(h, level, cursor) == SiblingsFrom(h, LeafLevel(h, values), index)
      decreases |level|
    {
      var siblingIndex := if cursor % 2 == 0 then cursor + 1 else cursor - 1;
      ghost var before := siblings;
      if siblingIndex < |level| {
        siblings := siblings + [Sibling(if siblingIndex < cursor then Left else Right, level[siblingIndex])];
      }
      assert siblings == before + SiblingAt(level, cursor);
      SiblingsStep(h, level, cursor, before);
      level := ComputeNextLevel(h, level);
      cursor := cursor / 2;
    }
    var root := ComputeMerkleRoot(h, values);
    p := MembershipProof(values[index], index, |values|, root, siblings);
  }

  lemma {:induction false} ClimbAppend(h: HashFn, start: Digest, a: seq<Sibling>, b: seq<Sibling>)
    requires SiblingsOk(a) && SiblingsOk(b)
    ensures SiblingsOk(a + b)
    ensures Climb(h, start, a + b) == Climb(h, Climb(h, start, a), b)
  {
    if |b| == 0 {
      assert a + b == a;
    } else {
      var n := |b| - 1;
      ClimbAppend(h, start, a, b[..n]);
      assert (a + b)[..|a| + n] == a + b[..n];
    }
  }

  lemma ClimbOne(h: HashFn, level: seq<Digest>, cursor: nat)
    requires cursor < |level|
    ensures cursor / 2 < |NextLevel(h, level)|
    ensures Climb(h, level[cursor], SiblingAt(level, cursor)) == NextLevel(h, level)[cursor / 2]
  {
    NextLevelAt(h, level, cursor / 2);
    assert 2 * (cursor / 2) == cursor - cursor % 2;
    var s := SiblingAt(level, cursor);
    assert s != [] ==> s[..0] == [];
  }

  lemma {:induction false} ClimbReachesRoot(h: HashFn, level: seq<Digest>, cursor: nat)
    requires cursor < |level|
    ensures Climb(h, level[cursor], SiblingsFrom(h, level, cursor)) == LevelRoot(h, level)
    decreases |level|
  {
    if |level| > 1 {
      var next := NextLevel(h, level);
      var s := SiblingAt(level, cursor);
      ClimbOne(h, level, cursor);
      ClimbAppend(h, level[cursor], s, SiblingsFrom(h, next, cursor / 2));
      ClimbReachesRoot(h, next, cursor / 2);
    }
  }

  /** Every value of every list has a proof that verifies against the root of the list. */
  lemma MembershipComplete(h: HashFn, values: seq<Text>, index: nat)
    requires index < |values|
    ensures MembershipVerifies(h, ProofFor(h, values, index), MerkleRoot(h, values))
  {
    ClimbReachesRoot(h, LeafLevel(h, values), index);
  }

  function StepText(current: Digest, s: Sibling): Text
    requires SiblingOk(s)
  {
    if s.position == Left then NodeText(s.hash, current) else NodeText(current, s.hash)
  }

  ghost function StepTexts(h: HashFn, start: Digest, siblings: seq<Sibling>): set<Text>
    requires SiblingsOk(siblings)
  {
    if |siblings| == 0 then {}
    else
      var n := |siblings| - 1;
      StepTexts(h, start, siblings[..n]) + {StepText(Climb(h, start, siblings[..n]), siblings[n])}
  }

  /** The texts hashed when a proof is checked. */
  ghost function ClimbTexts(h: HashFn, value: Text, siblings: seq<Sibling>): set<Text>
    requires SiblingsOk(siblings)
  {
    {LeafText(value)} + StepTexts(h, LeafHash(h, value), siblings)
  }

  lemma CombineRead(h: HashFn, texts: set<Text>, start: Digest, s: Sibling, l: Tree, r: Tree)
    requires SiblingOk(s)
    requires CollisionFree(h, texts) && StepText(start, s) in texts && TreeTexts(h, Node(l, r)) <= texts
    requires Combine(h, start, s) == TreeDigest(h, Node(l, r))
    ensures start == TreeDigest(h, if s.position == Left then r else l)
  {
    var x, y := TreeDigest(h, l), TreeDigest(h, r);
    assert h(StepText(start, s)) == h(NodeText(x, y));
    NodeTextInjective(if s.position == Left then s.hash else start, if s.position == Left then start else s.hash, x, y);
  }

  function Sides(siblings: seq<Sibling>): (r: seq<Position>)
    ensures |r| == |siblings|
  {
    seq(|siblings|, i requires 0 <= i < |siblings| => siblings[i].position)
  }

  /** The leaf reached from the top by keeping away from each sibling; the sides are listed from the bottom. */
  ghost function Descend(t: Tree, sides: seq<Position>): seq<Text>
    decreases t
  {
    match t
    case Leaf(v) => if |sides| == 0 then [v] else []
    case Node(l, r) =>
      if |sides| == 0 then []
      else Descend(if sides[|sides| - 1] == Left then r else l, sides[..|sides| - 1])
  }

  /** The last sibling of a climb that reaches the digest of a tree is a child of its root. */
  lemma TopSibling(h: HashFn, t: Tree, below: Digest, s: Sibling)
    requires SiblingOk(s) && CollisionFree(h, TreeTexts(h, t) + {StepText(below, s)})
    requires Combine(h, below, s) == TreeDigest(h, t)
    ensures t.Node? && below == TreeDigest(h, if s.position == Left then t.right else t.left)
  {
    match t
    case Leaf(v) =>
      DomainSeparation(v, below, s.hash);
      DomainSeparation(v, s.hash, below);
    case Node(l, r) => CombineRead(h, TreeTexts(h, t) + {StepText(below, s)}, below, s, l, r);
  }

  /** A climb that reaches the digest of a tree starts at the leaf that its sides lead to. */
  lemma {:induction false} ClimbDescends(h: HashFn, t: Tree, value: Text, siblings: seq<Sibling>)
    requires SiblingsOk(siblings)
    requires CollisionFree(h, TreeTexts(h, t) + ClimbTexts(h, value, siblings))
    requires Climb(h, LeafHash(h, value), siblings) == TreeDigest(h, t)
    ensures Descend(t, Sides(siblings)) == [value]
    decreases t
  {
    if |siblings| == 0 {
      match t
      case Leaf(v) => LeafTextInjective(value, v);
      case Node(l, r) => DomainSeparation(value, TreeDigest(h, l), TreeDigest(h, r));
    } else {
      var n := |siblings| - 1;
      var below, s := Climb(h, LeafHash(h, value), siblings[..n]), siblings[n];
      assert ClimbTexts(h, value, siblings) == ClimbTexts(h, value, siblings[..n]) + {StepText(below, s)};
      hide Climb, ClimbTexts, TreeDigest, StepText;
      TopSibling(h, t, below, s);
      ClimbDescends(h, if s.position == Left then t.right else t.left, value, siblings[..n]);
      assert Sides(siblings)[..n] == Sides(siblings[..n]);
    }
  }

  /** The leaf at the end of a walk is a leaf of the tree. */
  lemma {:induction false} DescendLeaf(t: Tree, sides: seq<Position>, v: Text)
    requires Descend(t, sides) == [v]
    ensures v in Leaves(t)
  {
    if t.Node? {
      DescendLeaf(if sides[|sides| - 1] == Left then t.right else t.left, sides[..|sides| - 1], v);
    }
  }

  /** The last text hashed by a check, which is never the text of the empty set. */
  lemma ClimbTop(h: HashFn, value: Text, siblings: seq<Sibling>) returns (top: Text)
    requires SiblingsOk(siblings)
    ensures top in ClimbTexts(h, value, siblings) && top != EMPTY_TEXT
    ensures h(top) == Climb(h, LeafHash(h, value), siblings)
  {
    if |siblings| == 0 {
      top := LeafText(value);
      DomainSeparation(value, h([]), h([]));
    } else {
      var n := |siblings| - 1;
      var below := Climb(h, LeafHash(h, value), siblings[..n]);
      var s := siblings[n];
      top := StepText(below, s);
      DomainSeparation([], s.hash, below);
      DomainSeparation([], below, s.hash);
    }
  }

  /** Any proof, whatever its siblings, that verifies against the root of a list proves a value of the list. */
  lemma MembershipSound(h: HashFn, values: seq<Text>, p: MembershipProof)
    requires MembershipVerifies(h, p, MerkleRoot(h, values))
    requires CollisionFree(h, RootTexts(h, values) + ClimbTexts(h, p.value, p.siblings))
    ensures p.value in values
  {
    var d := Climb(h, LeafHash(h, p.value), p.siblings);
    if |values| == 0 {
      var top := ClimbTop(h, p.value, p.siblings);
      PrefixedInjective(d, h(EMPTY_TEXT));
    } else {
      TreeOfCorrect(h, values);
      PrefixedInjective(d, TreeDigest(h, TreeOf(values)));
      ClimbDescends(h, TreeOf(values), p.value, p.siblings);
      DescendLeaf(TreeOf(values), Sides(p.siblings), p.value);
    }
  }

  // ----- A proof whose path has the shape of its claimed position -----

  /** The side of each sibling on the way up from position `cursor` of a level of `size` nodes. */
  function PathShape(cursor: nat, size: nat): seq<Position>
    requires cursor < size
    decreases size
  {
    if size == 1 then []
    else
      (if cursor % 2 == 1 then [Left] else if cursor + 1 < size then [Right] else [])
      + PathShape(cursor / 2, (size + 1) / 2)
  }

  ghost predicate HasShape(siblings: seq<Sibling>, shape: seq<Position>)
  {
    |siblings| == |shape| && forall i :: 0 <= i < |shape| ==> siblings[i].position == shape[i]
  }

  lemma {:induction false} SiblingsFromShape(h: HashFn, level: seq<Digest>, cursor: nat)
    requires cursor < |level|
    ensures HasShape(SiblingsFrom(h, level, cursor), PathShape(cursor, |level|))
    decreases |level|
  {
    if |level| > 1 { SiblingsFromShape(h, NextLevel(h, level), cursor / 2); }
  }

  lemma {:induction false} NextTreesAt(ts: seq<Tree>, i: nat)
    requires 2 * i < |ts|
    ensures i < |NextTrees(ts)|
    ensures NextTrees(ts)[i] == if 2 * i + 1 < |ts| then Node(ts[2 * i], ts[2 * i + 1]) else ts[2 * i]
  {
    if i > 0 { NextTreesAt(ts[2..], i - 1); }
  }

  lemma ParentAt(ts: seq<Tree>, i: nat)
    requires i < |ts|
    ensures i / 2 < |NextTrees(ts)|
    ensures NextTrees(ts)[i / 2] == if i % 2 == 1 then Node(ts[i - 1], ts[i])
                                    else if i + 1 < |ts| then Node(ts[i], ts[i + 1]) else ts[i]
  {
    NextTreesAt(ts, i / 2);
    assert 2 * (i / 2) == i - i % 2;
  }

  lemma {:induction false} SubtreeTexts(h: HashFn, ts: seq<Tree>, i: nat)
    requires i < |ts|
    ensures TreeTexts(h, ts[i]) <= TreeTexts(h, RootTree(ts))
    decreases |ts|
  {
    if |ts| > 1 {
      ParentAt(ts, i);
      SubtreeTexts(h, NextTrees(ts), i / 2);
    }
  }

  lemma {:induction false} StepTextsCons(h: HashFn, start: Digest, s: Sibling, rest: seq<Sibling>)
    requires SiblingOk(s) && SiblingsOk(rest)
    ensures SiblingsOk([s] + rest)
    ensures StepTexts(h, start, [s] + rest) == {StepText(start, s)} + StepTexts(h, Combine(h, start, s), rest)
    ensures Climb(h, start, [s] + rest) == Climb(h, Combine(h, start, s), rest)
  {
    var all := [s] + rest;
    if |rest| == 0 {
      assert all[..0] == [] && all == [s];
    } else {
      var n := |rest| - 1;
      StepTextsCons(h, start, s, rest[..n]);
      assert all[..|rest|] == [s] + rest[..n];
    }
  }

  lemma StepTextsFront(h: HashFn, start: Digest, siblings: seq<Sibling>)
    requires SiblingsOk(siblings) && |siblings| > 0
    ensures var next := Combine(h, start, siblings[0]);
      && Climb(h, next, siblings[1..]) == Climb(h, start, siblings)
      && StepText(start, siblings[0]) in StepTexts(h, start, siblings)
      && StepTexts(h, next, siblings[1..]) <= StepTexts(h, start, siblings)
  {
    hide StepTexts, Climb;
    StepTextsCons(h, start, siblings[0], siblings[1..]);
    assert siblings == [siblings[0]] + siblings[1..];
  }

  /** The shape of a path, one level up: nothing to combine for the odd last node, one sibling otherwise. */
  lemma ShapePromoted(k: nat)
    requires k > 0
    ensures PathShape(2 * k, 2 * k + 1) == PathShape(k, k + 1)
  {
  }

  /** What is left to prove of a climb one level up. */
  ghost predicate Climbs(h: HashFn, texts: set<Text>, ts: seq<Tree>, cursor: nat, start: Digest, siblings: seq<Sibling>)
  {
    && cursor < |ts| && SiblingsOk(siblings)
    && HasShape(siblings, PathShape(cursor, |ts|))
    && TreeTexts(h, RootTree(ts)) <= texts && StepTexts(h, start, siblings) <= texts
    && Climb(h, start, siblings) == TreeDigest(h, RootTree(ts))
  }

  lemma ClimbsUp(h: HashFn, texts: set<Text>, ts: seq<Tree>, up: nat, side: Position, start: Digest,
      siblings: seq<Sibling>)
    requires |ts| > 1 && SiblingsOk(siblings) && up < |NextTrees(ts)|
    requires HasShape(siblings, [side] + PathShape(up, |NextTrees(ts)|))
    requires TreeTexts(h, RootTree(ts)) <= texts && StepTexts(h, start, siblings) <= texts
    requires Climb(h, start, siblings) == TreeDigest(h, RootTree(ts))
    ensures siblings[0].position == side && StepText(start, siblings[0]) in texts
    ensures Climbs(h, texts, NextTrees(ts), up, Combine(h, start, siblings[0]), siblings[1..])
  {
    StepTextsFront(h, start, siblings);
    assert HasShape(siblings[1..], PathShape(up, |NextTrees(ts)|));
  }

  lemma ClimbsPair(h: HashFn, texts: set<Text>, ts: seq<Tree>, cursor: nat, start: Digest, siblings: seq<Sibling>)
    requires Climbs(h, texts, ts, cursor, start, siblings)
    requires |ts| > 1 && !(cursor % 2 == 0 && cursor + 1 == |ts|)
    ensures |siblings| > 0 && siblings[0].position == if cursor % 2 == 1 then Left else Right
    ensures StepText(start, siblings[0]) in texts
    ensures Climbs(h, texts, NextTrees(ts), cursor / 2, Combine(h, start, siblings[0]), siblings[1..])
  {
    ClimbsUp(h, texts, ts, cursor / 2, if cursor % 2 == 1 then Left else Right, start, siblings);
  }

  lemma ClimbsSame(h: HashFn, texts: set<Text>, ts: seq<Tree>, up: nat, start: Digest, siblings: seq<Sibling>)
    requires |ts| > 1 && SiblingsOk(siblings) && up < |NextTrees(ts)|
    requires HasShape(siblings, PathShape(up, |NextTrees(ts)|))
    requires TreeTexts(h, RootTree(ts)) <= texts && StepTexts(h, start, siblings) <= texts
    requires Climb(h, start, siblings) == TreeDigest(h, RootTree(ts))
    ensures Climbs(h, texts, NextTrees(ts), up, start, siblings)
  {
  }

  lemma ClimbsPromoted(h: HashFn, texts: set<Text>, ts: seq<Tree>, k: nat, start: Digest, siblings: seq<Sibling>)
    requires |ts| == 2 * k + 1 && k > 0
    requires Climbs(h, texts, ts, 2 * k, start, siblings)
    ensures Climbs(h, texts, NextTrees(ts), k, start, siblings)
    ensures NextTrees(ts)[k] == ts[2 * k]
  {
    hide TreeTexts, StepTexts, Climb, TreeDigest, RootTree, HasShape, PathShape;
    ShapePromoted(k);
    NextTreesAt(ts, k);
    assert |NextTrees(ts)| == k + 1;
    assert PathShape(2 * k, |ts|) == PathShape(k, k + 1);
    ClimbsSame(h, texts, ts, k, start, siblings);
  }

  /** Over any forest: a climb of the right shape that reaches the root starts at the digest of its position. */
  lemma {:induction false} ClimbStartsAt(
    h: HashFn, texts: set<Text>, ts: seq<Tree>, cursor: nat, start: Digest, siblings: seq<Sibling>)
    requires CollisionFree(h, texts) && Climbs(h, texts, ts, cursor, start, siblings)
    ensures start == TreeDigest(h, ts[cursor])
    decreases |ts|
  {
    if |ts| == 1 {
      assert siblings == [];
    } else if cursor % 2 == 0 && cursor + 1 == |ts| {
      var k := cursor / 2;
      ClimbsPromoted(h, texts, ts, k, start, siblings);
      ClimbStartsAt(h, texts, NextTrees(ts), k, start, siblings);
    } else {
      ClimbsPair(h, texts, ts, cursor, start, siblings);
      ClimbStartsAt(h, texts, NextTrees(ts), cursor / 2, Combine(h, start, siblings[0]), siblings[1..]);
      PairStart(h, texts, ts, cursor, start, siblings[0]);
    }
  }

  lemma PairStart(h: HashFn, texts: set<Text>, ts: seq<Tree>, cursor: nat, start: Digest, s: Sibling)
    requires |ts| > 1 && cursor < |ts| && !(cursor % 2 == 0 && cursor + 1 == |ts|)
    requires SiblingOk(s) && s.position == if cursor % 2 == 1 then Left else Right
    requires CollisionFree(h, texts) && StepText(start, s) in texts && TreeTexts(h, RootTree(ts)) <= texts
    requires Combine(h, start, s) == TreeDigest(h, NextTrees(ts)[cursor / 2])
    ensures start == TreeDigest(h, ts[cursor])
  {
    hide TreeTexts, TreeDigest, StepText;
    ParentAt(ts, cursor);
    SubtreeTexts(h, NextTrees(ts), cursor / 2);
    if cursor % 2 == 1 { CombineRead(h, texts, start, s, ts[cursor - 1], ts[cursor]); }
    else { CombineRead(h, texts, start, s, ts[cursor], ts[cursor + 1]); }
  }

  /** A verified proof whose path has the shape of its claimed index proves the value at that very index. */
  lemma PositionBinding(h: HashFn, values: seq<Text>, p: MembershipProof)
    requires MembershipVerifies(h, p, MerkleRoot(h, values))
    requires p.size == |values| && HasShape(p.siblings, PathShape(p.index, p.size))
    requires CollisionFree(h, RootTexts(h, values) + ClimbTexts(h, p.value, p.siblings))
    ensures p.value == values[p.index]
  {
    var start := LeafHash(h, p.value);
    var ts := LeafTrees(values);
    TreeOfCorrect(h, values);
    PrefixedInjective(Climb(h, start, p.siblings), TreeDigest(h, TreeOf(values)));
    ClimbStartsAt(h, RootTexts(h, values) + ClimbTexts(h, p.value, p.siblings), ts, p.index, start, p.siblings);
    SubtreeTexts(h, ts, p.index);
    assert ts[p.index] == Leaf(values[p.index]);
    LeafTextInjective(p.value, values[p.index]);
  }
}
