/** SHA-256 as an arbitrary function of the hashed text, with 64 lower-case hexadecimal digits as its value. */
module Hashing {
  import opened JsText
  import opened Json

  predicate IsDigest(t: Text)
  {
    |t| == 64 && forall i :: 0 <= i < |t| ==> 48 <= t[i] <= 57 || 97 <= t[i] <= 102
  }

  type Digest = t: Text | IsDigest(t) witness seq(64, _ => 48)

  type HashFn = Text -> Digest

  /** No two texts of a finite set share a digest.  Every soundness result names the set of texts
      that the computation at hand really hashes: a hash into 64 digits has collisions somewhere. */
  ghost predicate CollisionFree(h: HashFn, texts: set<Text>)
  {
    forall a, b :: a in texts && b in texts && h(a) == h(b) ==> a == b
  }

  lemma CollisionFreeSubset(h: HashFn, small: set<Text>, large: set<Text>)
    requires CollisionFree(h, large) && small <= large
    ensures CollisionFree(h, small)
  {
  }

  const SHA256_PREFIX: Text := Lit("sha256:")

  /** `sha256:` and a digest. */
  function Prefixed(d: Digest): Text { SHA256_PREFIX + d }

  /** `ROOT_RE`. */
  predicate IsRoot(t: Text)
  {
    |t| == 71 && t[..7] == SHA256_PREFIX && IsDigest(t[7..])
  }

  lemma PrefixedInjective(a: Digest, b: Digest)
    requires Prefixed(a) == Prefixed(b)
    ensures a == b
  {
    AppendInjective(SHA256_PREFIX, SHA256_PREFIX, a, b);
  }

  lemma PrefixedIsRoot(d: Digest)
    ensures IsRoot(Prefixed(d))
  {
    assert Prefixed(d)[..7] == SHA256_PREFIX && Prefixed(d)[7..] == d;
  }

  predicate IsLowerHex(t: Text)
  {
    forall i :: 0 <= i < |t| ==> '0' as int <= t[i] <= '9' as int || 'a' as int <= t[i] <= 'f' as int
  }

  /** A root is the prefix and 64 lower-case hexadecimal digits. */
  lemma RootExactly(t: Text)
    ensures IsRoot(t) <==> exists d: Text :: |d| == 64 && IsLowerHex(d) && t == Lit("sha256:") + d
  {
    if IsRoot(t) { assert t == Lit("sha256:") + t[7..]; }
    if d: Text :| |d| == 64 && IsLowerHex(d) && t == Lit("sha256:") + d {
      assert t[..7] == Lit("sha256:") && t[7..] == d;
    }
  }

  /** `normalizeSha256Root`: a bare digest is given its prefix, anything else that is not a root throws. */
  function NormalizeRoot(t: Text): (r: Result<Text>)
    ensures r.Ok? <==> IsRoot(t) || IsDigest(t)
    ensures IsRoot(t) ==> r == Ok(t)
    ensures IsDigest(t) ==> r == Ok(Prefixed(t))
    ensures r.Ok? ==> IsRoot(r.value)
  {
    if IsRoot(t) then Ok(t)
    else if IsDigest(t) then PrefixedIsRoot(t); Ok(Prefixed(t))
    else Throws
  }
}
