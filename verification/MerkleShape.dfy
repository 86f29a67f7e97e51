/** What the sides of the siblings on a path say about the leaf at its end, in a tree of any size. */
module MerkleShape {
  import opened JsText
  import opened Hashing
  import opened Merkle

  // ----- First, last and adjacent leaves -----

  ghost predicate All(sides: seq<Position>, side: Position) { forall i :: 0 <= i < |sides| ==> sides[i] == side }

  lemma {:induction false} FirstLeaf(t: Tree, sides: seq<Position>, v: Text)
    requires All(sides, Right) && Descend(t, sides) == [v]
    ensures |Leaves(t)| > 0 && Leaves(t)[0] == v
  {
    if t.Node? { FirstLeaf(t.left, sides[..|sides| - 1], v); }
  }

  lemma {:induction false} LastLeaf(t: Tree, sides: seq<Position>, v: Text)
    requires All(sides, Left) && Descend(t, sides) == [v]
    ensures |Leaves(t)| > 0 && Leaves(t)[|Leaves(t)| - 1] == v
  {
    if t.Node? { LastLeaf(t.right, sides[..|sides| - 1], v); }
  }

  /** Two paths that part somewhere, the first to the last leaf on the left, the second to the first on the right. */
  ghost predicate Adjacent(p: seq<Position>, q: seq<Position>)
  {
    |p| > 0 && |q| > 0 &&
      var m, n := |p| - 1, |q| - 1;
      || (p[m] == q[n] && Adjacent(p[..m], q[..n]))
      || (p[m] == Right && q[n] == Left && All(p[..m], Left) && All(q[..n], Right))
  }

  lemma {:induction false} AdjacentLeaves(t: Tree, p: seq<Position>, q: seq<Position>, v: Text, w: Text)
      returns (k: nat)
    requires Adjacent(p, q) && Descend(t, p) == [v] && Descend(t, q) == [w]
    ensures k + 1 < |Leaves(t)| && Leaves(t)[k] == v && Leaves(t)[k + 1] == w
    decreases t
  {
    var m, n := |p| - 1, |q| - 1;
    var l, r := Leaves(t.left), Leaves(t.right);
    if p[m] == q[n] && Adjacent(p[..m], q[..n]) {
      if p[m] == Left {
        k := AdjacentLeaves(t.right, p[..m], q[..n], v, w);
        k := |l| + k;
      } else {
        k := AdjacentLeaves(t.left, p[..m], q[..n], v, w);
      }
    } else {
      LastLeaf(t.left, p[..m], v);
      FirstLeaf(t.right, q[..n], w);
      k := |l| - 1;
    }
    assert Leaves(t) == l + r;
  }

  // ----- Shapes of positions -----

  lemma {:induction false} FirstShape(size: nat)
    requires size > 0
    ensures All(PathShape(0, size), Right)
  {
    if size > 1 { FirstShape((size + 1) / 2); }
  }

  lemma {:induction false} LastShape(size: nat)
    requires size > 0
    ensures All(PathShape(size - 1, size), Left)
  {
    if size > 1 {
      LastShape((size + 1) / 2);
      assert (size - 1) / 2 == (size + 1) / 2 - 1;
    }
  }

  lemma {:induction false} AdjacentAbove(top: seq<Position>)
    ensures Adjacent([Right] + top, [Left] + top)
  {
    if |top| > 0 {
      var n := |top| - 1;
      AdjacentAbove(top[..n]);
      assert ([Right] + top)[..|top|] == [Right] + top[..n] && ([Left] + top)[..|top|] == [Left] + top[..n];
    }
  }

  lemma {:induction false} AdjacentBelow(p: seq<Position>, q: seq<Position>)
    requires Adjacent(p, q)
    ensures Adjacent([Left] + p, q) && Adjacent([Left] + p, [Right] + q)
  {
    var m, n := |p| - 1, |q| - 1;
    assert ([Left] + p)[..|p|] == [Left] + p[..m] && ([Right] + q)[..|q|] == [Right] + q[..n];
    if p[m] == q[n] && Adjacent(p[..m], q[..n]) { AdjacentBelow(p[..m], q[..n]); }
  }

  lemma {:induction false} AdjacentShapes(i: nat, size: nat)
    requires i + 1 < size
    ensures Adjacent(PathShape(i, size), PathShape(i + 1, size))
    decreases size
  {
    hide Adjacent;
    var up, n := i / 2, (size + 1) / 2;
    if i % 2 == 0 {
      assert (i + 1) / 2 == up;
      AdjacentAbove(PathShape(up, n));
    } else {
      assert (i + 1) / 2 == up + 1;
      AdjacentShapes(up, n);
      AdjacentBelow(PathShape(up, n), PathShape(up + 1, n));
      assert [] + PathShape(up + 1, n) == PathShape(up + 1, n);
    }
  }

  // ----- The texts of built proofs -----

  /** Checking a built proof hashes no text that was not hashed for the root. */
  lemma {:induction false} StepsInTree(h: HashFn, ts: seq<Tree>, cursor: nat)
    requires cursor < |ts|
    ensures StepTexts(h, TreeDigest(h, ts[cursor]), SiblingsFrom(h, Digests(h, ts), cursor))
      <= TreeTexts(h, RootTree(ts))
    decreases |ts|
  {
    if |ts| > 1 {
      hide StepTexts, TreeTexts, SiblingAt;
      var up := cursor / 2;
      NextTreesDigests(h, ts);
      ParentAt(ts, cursor);
      StepsInTree(h, NextTrees(ts), up);
      SubtreeTexts(h, NextTrees(ts), up);
      OneStep(h, ts, cursor, SiblingsFrom(h, Digests(h, NextTrees(ts)), up));
    }
  }

  lemma OneStep(h: HashFn, ts: seq<Tree>, cursor: nat, rest: seq<Sibling>)
    requires cursor < |ts| && |ts| > 1 && SiblingsOk(rest)
    requires cursor / 2 < |NextTrees(ts)|
    requires NextTrees(ts)[cursor / 2] ==
      if cursor % 2 == 1 then Node(ts[cursor - 1], ts[cursor])
      else if cursor + 1 < |ts| then Node(ts[cursor], ts[cursor + 1]) else ts[cursor]
    ensures var start, parent := TreeDigest(h, ts[cursor]), NextTrees(ts)[cursor / 2];
      SiblingsOk(SiblingAt(Digests(h, ts), cursor) + rest) &&
      StepTexts(h, start, SiblingAt(Digests(h, ts), cursor) + rest)
        <= TreeTexts(h, parent) + StepTexts(h, TreeDigest(h, parent), rest)
  {
    hide StepTexts;
    var s := SiblingAt(Digests(h, ts), cursor);
    if s == [] {
      assert s + rest == rest;
    } else {
      StepTextsCons(h, TreeDigest(h, ts[cursor]), s[0], rest);
      assert s == [s[0]];
    }
  }

  lemma ProofTexts(h: HashFn, values: seq<Text>, index: nat)
    requires index < |values|
    ensures ClimbTexts(h, values[index], ProofFor(h, values, index).siblings) <= RootTexts(h, values)
  {
    hide StepTexts, TreeTexts, SiblingsFrom;
    var ts := LeafTrees(values);
    assert Digests(h, ts) == LeafLevel(h, values);
    StepsInTree(h, ts, index);
    SubtreeTexts(h, ts, index);
    LeafTexts(h, values[index]);
  }

  lemma LeafTexts(h: HashFn, v: Text)
    ensures TreeTexts(h, Leaf(v)) == {LeafText(v)}
  {
  }

  // ----- Proofs against a root -----

  lemma ShapeSides(siblings: seq<Sibling>, shape: seq<Position>)
    requires HasShape(siblings, shape)
    ensures Sides(siblings) == shape
  {
  }

  /** A verified proof ends at the leaf that its path leads to in the tree of the values. */
  lemma ProofDescends(h: HashFn, values: seq<Text>, m: MembershipProof)
    requires MembershipVerifies(h, m, MerkleRoot(h, values)) && HasShape(m.siblings, PathShape(m.index, m.size))
    requires CollisionFree(h, RootTexts(h, values) + ClimbTexts(h, m.value, m.siblings))
    ensures |values| > 0 && Descend(TreeOf(values), PathShape(m.index, m.size)) == [m.value]
  {
    hide Climb, ClimbTexts, PathShape, HasShape;
    MembershipSound(h, values, m);
    TreeOfCorrect(h, values);
    PrefixedInjective(Climb(h, LeafHash(h, m.value), m.siblings), TreeDigest(h, TreeOf(values)));
    ClimbDescends(h, TreeOf(values), m.value, m.siblings);
    ShapeSides(m.siblings, PathShape(m.index, m.size));
  }

  /** A path of the shape of the first of any number of leaves ends at the first value. */
  lemma FirstByShape(h: HashFn, values: seq<Text>, m: MembershipProof)
    requires MembershipVerifies(h, m, MerkleRoot(h, values)) && HasShape(m.siblings, PathShape(m.index, m.size))
    requires CollisionFree(h, RootTexts(h, values) + ClimbTexts(h, m.value, m.siblings)) && m.index == 0
    ensures |values| > 0 && values[0] == m.value
  {
    hide MembershipVerifies, HasShape, PathShape, ClimbTexts, MerkleRoot;
    ProofDescends(h, values, m);
    TreeOfCorrect(h, values);
    IndexInSize(h, m, MerkleRoot(h, values));
    FirstShape(m.size);
    FirstLeaf(TreeOf(values), PathShape(m.index, m.size), m.value);
  }

  /** A path of the shape of the last of any number of leaves ends at the last value. */
  lemma LastByShape(h: HashFn, values: seq<Text>, m: MembershipProof)
    requires MembershipVerifies(h, m, MerkleRoot(h, values)) && HasShape(m.siblings, PathShape(m.index, m.size))
    requires CollisionFree(h, RootTexts(h, values) + ClimbTexts(h, m.value, m.siblings)) && m.index == m.size - 1
    ensures |values| > 0 && values[|values| - 1] == m.value
  {
    hide MembershipVerifies, HasShape, PathShape, ClimbTexts, MerkleRoot;
    ProofDescends(h, values, m);
    TreeOfCorrect(h, values);
    IndexInSize(h, m, MerkleRoot(h, values));
    LastShape(m.size);
    LastLeaf(TreeOf(values), PathShape(m.index, m.size), m.value);
  }

  /** Paths of the shapes of neighbours among any number of leaves end at neighbouring values. */
  lemma NeighboursByShape(h: HashFn, values: seq<Text>, m: MembershipProof, n: MembershipProof) returns (k: nat)
    requires MembershipVerifies(h, m, MerkleRoot(h, values)) && HasShape(m.siblings, PathShape(m.index, m.size))
    requires MembershipVerifies(h, n, MerkleRoot(h, values)) && HasShape(n.siblings, PathShape(n.index, n.size))
    requires m.size == n.size && m.index + 1 == n.index
    requires CollisionFree(h, RootTexts(h, values) + ClimbTexts(h, m.value, m.siblings))
    requires CollisionFree(h, RootTexts(h, values) + ClimbTexts(h, n.value, n.siblings))
    ensures k + 1 < |values| && values[k] == m.value && values[k + 1] == n.value
  {
    hide MembershipVerifies, HasShape, PathShape, ClimbTexts, MerkleRoot;
    ProofDescends(h, values, m);
    ProofDescends(h, values, n);
    TreeOfCorrect(h, values);
    IndexInSize(h, m, MerkleRoot(h, values));
    IndexInSize(h, n, MerkleRoot(h, values));
    AdjacentShapes(m.index, m.size);
    k := AdjacentLeaves(TreeOf(values), PathShape(m.index, m.size), PathShape(n.index, n.size), m.value, n.value);
  }

  lemma IndexInSize(h: HashFn, m: MembershipProof, root: Text)
    requires MembershipVerifies(h, m, root)
    ensures 0 <= m.index < m.size
  {
  }
}
