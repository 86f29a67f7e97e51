/** The same root from the top: a list is split at the largest power of two below its length, as in the Merkle tree
    hash of section 2.1 of RFC 6962. */
module MerkleTopDown {
  import opened JsText
  import opened Hashing
  import opened Merkle

  /** The largest power of two below a number. */
  function SplitPoint(n: nat): (k: nat)
    requires n > 1
    ensures n <= 2 * k && 0 < k < n
  {
    if n == 2 then 1 else 2 * SplitPoint((n + 1) / 2)
  }

  /** The digest of a list of values, with the hashed texts spelled out. */
  function TopDown(h: HashFn, values: seq<Text>): Digest
    requires |values| > 0
    decreases |values|
  {
    if |values| == 1 then h(Lit("enigma.merkle.leaf.v1") + [0] + values[0])
    else
      var k := SplitPoint(|values|);
      h(Lit("enigma.merkle.node.v1") + [0] + TopDown(h, values[..k]) + [0] + TopDown(h, values[k..]))
  }

  predicate IsPowerOfTwo(k: nat)
  {
    k == 1 || (k > 1 && k % 2 == 0 && IsPowerOfTwo(k / 2))
  }

  /** It is a power of two, and twice as much is not below the length. */
  lemma {:induction false} SplitPointExact(n: nat)
    requires n > 1
    ensures IsPowerOfTwo(SplitPoint(n)) && SplitPoint(n) < n <= 2 * SplitPoint(n)
  {
    if n > 2 { SplitPointExact((n + 1) / 2); }
  }

  // ----- Levels from the top -----

  ghost function LevelDown(h: HashFn, level: seq<Digest>): Digest
    requires |level| > 0
    decreases |level|
  {
    if |level| == 1 then level[0]
    else
      var k := SplitPoint(|level|);
      NodeHash(h, LevelDown(h, level[..k]), LevelDown(h, level[k..]))
  }

  lemma {:induction false} NextAppend(h: HashFn, a: seq<Digest>, b: seq<Digest>)
    requires |a| % 2 == 0
    ensures NextLevel(h, a + b) == NextLevel(h, a) + NextLevel(h, b)
  {
    hide NodeHash;
    if |a| == 0 {
      assert a + b == b;
    } else {
      NextAppend(h, a[2..], b);
      assert (a + b)[2..] == a[2..] + b;
    }
  }

  /** One level up, the split is at half the place. */
  lemma {:induction false} DownNext(h: HashFn, level: seq<Digest>)
    requires |level| > 1
    ensures LevelDown(h, NextLevel(h, level)) == LevelDown(h, level)
    decreases |level|
  {
    hide NodeHash;
    if |level| == 2 {
      assert level[..1] == [level[0]] && level[1..] == [level[1]];
      assert NextLevel(h, level) == [NodeHash(h, level[0], level[1])] + NextLevel(h, level[2..]);
    } else {
      var k := SplitPoint(|level|);
      var a, b := level[..k], level[k..];
      assert level == a + b;
      NextAppend(h, a, b);
      var next := NextLevel(h, level);
      assert |NextLevel(h, a)| == k / 2 == SplitPoint(|next|);
      assert next[..k / 2] == NextLevel(h, a) && next[k / 2..] == NextLevel(h, b);
      DownNext(h, a);
      if |b| > 1 { DownNext(h, b); }
    }
  }

  lemma {:induction false} LevelRootDown(h: HashFn, level: seq<Digest>)
    requires |level| > 0
    ensures LevelRoot(h, level) == LevelDown(h, level)
    decreases |level|
  {
    if |level| > 1 {
      LevelRootDown(h, NextLevel(h, level));
      DownNext(h, level);
    }
  }

  lemma {:induction false} LeavesDown(h: HashFn, values: seq<Text>)
    requires |values| > 0
    ensures LevelDown(h, LeafLevel(h, values)) == TopDown(h, values)
    decreases |values|
  {
    if |values| > 1 {
      var k := SplitPoint(|values|);
      assert LeafLevel(h, values)[..k] == LeafLevel(h, values[..k]);
      assert LeafLevel(h, values)[k..] == LeafLevel(h, values[k..]);
      LeavesDown(h, values[..k]);
      LeavesDown(h, values[k..]);
      NodeSpelled(TopDown(h, values[..k]), TopDown(h, values[k..]));
    }
  }

  lemma NodeSpelled(left: Digest, right: Digest)
    ensures NodeText(left, right) == Lit("enigma.merkle.node.v1") + [0] + left + [0] + right
  {
    AppendAssoc(NODE_PREFIX, left, [0] + right);
    AppendAssoc(NODE_PREFIX + left, [0], right);
  }

  /** The level by level root is the one that is computed from the top. */
  lemma RootTopDown(h: HashFn, values: seq<Text>)
    ensures MerkleRoot(h, values)
         == Lit("sha256:") + if |values| == 0 then h(Lit("enigma.merkle.empty.v1")) else TopDown(h, values)
  {
    if |values| > 0 {
      LevelRootDown(h, LeafLevel(h, values));
      LeavesDown(h, values);
    }
  }
}
