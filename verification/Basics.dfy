/** What several components share: bytes, optional values, positions in texts, concatenation, powers of two and sizes of subsets. */
module Basics {
  const MAX_INT: nat := 0x7fff_ffff
  const TWO_64 := 0x1_0000_0000_0000_0000

  newtype byte = x: int | 0 <= x < 256

  datatype Option<+T> = None | Some(value: T)

  /** `n` bytes, lowest first. */
  function Le(x: nat, n: nat): (b: seq<byte>)
    ensures |b| == n
  {
    if n == 0 then [] else [(x % 256) as byte] + Le(x / 256, n - 1)
  }

  function Pow2(k: nat): (r: nat)
    ensures r > 0
  {
    if k == 0 then 1 else 2 * Pow2(k - 1)
  }

  lemma SubsetSize<T>(a: set<T>, b: set<T>)
    requires a <= b
    ensures |a| <= |b| && (|a| == |b| ==> a == b)
  {
    assert b == a + (b - a);
  }

  /** A character, or the zero character behind the end of a C string. */
  function At(s: string, i: int): char {
    if 0 <= i < |s| then s[i] else '\0'
  }

  function Concat(chunks: seq<seq<byte>>): seq<byte> {
    if chunks == [] then [] else chunks[0] + Concat(chunks[1..])
  }

  lemma {:induction false} ConcatAppend(bufs: seq<seq<byte>>, b: seq<byte>)
    ensures Concat(bufs + [b]) == Concat(bufs) + b
  {
    if bufs != [] {
      ConcatAppend(bufs[1..], b);
      assert (bufs + [b])[1..] == bufs[1..] + [b];
    }
  }

  /** From position `i` on `s` is `a`, and then something. */
  ghost predicate Reads<T>(s: seq<T>, i: nat, a: seq<T>) {
    i + |a| <= |s| && s[i..i + |a|] == a
  }

  lemma ReadsParts<T>(s: seq<T>, i: nat, a: seq<T>, b: seq<T>)
    requires Reads(s, i, a + b)
    ensures Reads(s, i, a) && Reads(s, i + |a|, b)
  {
    assert s[i..i + |a|] == s[i..i + |a + b|][..|a|];
    assert s[i + |a|..i + |a| + |b|] == s[i..i + |a + b|][|a|..];
  }

  lemma ReadsMeans<T>(s: seq<T>, i: nat, a: seq<T>)
    requires Reads(s, i, a)
    ensures i + |a| <= |s| && s[i..i + |a|] == a
  {
  }

  lemma ReadsAt<T>(s: seq<T>, i: nat, a: seq<T>, k: nat)
    requires Reads(s, i, a) && k < |a|
    ensures i + k < |s| && s[i + k] == a[k]
  {
    assert s[i..i + |a|][k] == s[i + k];
  }
}
