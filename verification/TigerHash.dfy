/** The streaming of adchpp/TigerHash.cpp: blocks, padding and resumption. The compression function is a parameter. */
module Tiger {
  import opened Basics

  const BLOCK := 64

  function Zeros(n: nat): (b: seq<byte>)
    ensures |b| == n
    ensures forall k :: 0 <= k < n ==> b[k] == 0
  {
    seq(n, _ => 0)
  }

  /** The state after all whole blocks of `m`. */
  function Fold<S>(compress: (S, seq<byte>) -> S, s: S, m: seq<byte>): S {
    if |m| < BLOCK then s else Fold(compress, compress(s, m[..BLOCK]), m[BLOCK..])
  }

  /** What stands behind `n` bytes: a one, zeros up to the last eight bytes of a block, and the number of bits. */
  function Padding(n: nat): seq<byte> {
    [1] + Zeros((2 * BLOCK - 8 - 1 - n % BLOCK) % BLOCK) + Le(8 * n % TWO_64, 8)
  }

  /** The definition of the digest: the padded message, block by block. */
  function Digest<S>(compress: (S, seq<byte>) -> S, start: S, m: seq<byte>): S {
    Fold(compress, start, m + Padding(|m|))
  }

  lemma {:induction false} FoldBoth<S>(compress: (S, seq<byte>) -> S, s: S, a: seq<byte>, b: seq<byte>)
    requires |a| % BLOCK == 0
    ensures Fold(compress, s, a + b) == Fold(compress, Fold(compress, s, a), b)
    decreases |a|
  {
    if |a| == 0 {
      assert a + b == b;
    } else {
      assert |a| >= BLOCK;
      assert (a + b)[..BLOCK] == a[..BLOCK] && (a + b)[BLOCK..] == a[BLOCK..] + b;
      FoldBoth(compress, compress(s, a[..BLOCK]), a[BLOCK..], b);
    }
  }

  lemma FoldBlock<S>(compress: (S, seq<byte>) -> S, s: S, b: seq<byte>)
    requires |b| == BLOCK
    ensures Fold(compress, s, b) == compress(s, b)
  {
    assert b[..BLOCK] == b && b[BLOCK..] == [];
  }

  /** The whole blocks of a message, and the rest. */
  function Cut(n: nat): (r: nat)
    ensures r <= n
  {
    n - n % BLOCK
  }

  /** Where the hash stands after the bytes `text`: the whole blocks are folded, the rest is in the buffer. */
  ghost predicate Holds<S>(compress: (S, seq<byte>) -> S, start: S, text: seq<byte>, res: S, tmp: seq<byte>) {
    && |tmp| == BLOCK
    && res == Fold(compress, start, text[..Cut(|text|)])
    && tmp[..|text| % BLOCK] == text[Cut(|text|)..]
  }

  /** Bytes that do not fill the block go to the buffer. */
  lemma HoldsMore<S>(compress: (S, seq<byte>) -> S, start: S, text: seq<byte>, res: S, tmp: seq<byte>, more: seq<byte>, next: seq<byte>)
    requires Holds(compress, start, text, res, tmp) && |text| % BLOCK + |more| < BLOCK
    requires |next| == BLOCK && next[..|text| % BLOCK] == tmp[..|text| % BLOCK]
    requires next[|text| % BLOCK..|text| % BLOCK + |more|] == more
    ensures Holds(compress, start, text + more, res, next)
  {
    var r := |text| % BLOCK;
    var both := text + more;
    assert |both| % BLOCK == r + |more| && Cut(|both|) == Cut(|text|);
    assert both[..Cut(|both|)] == text[..Cut(|text|)];
    assert next[..r + |more|] == next[..r] + next[r..r + |more|];
    assert both[Cut(|both|)..] == text[Cut(|text|)..] + more;
  }

  /** Bytes that fill the block: it is compressed, and the buffer is empty. */
  lemma HoldsBlock<S>(compress: (S, seq<byte>) -> S, start: S, text: seq<byte>, res: S, tmp: seq<byte>, more: seq<byte>, block: seq<byte>,
                      next: seq<byte>)
    requires Holds(compress, start, text, res, tmp) && |text| % BLOCK + |more| == BLOCK
    requires |block| == BLOCK && block == tmp[..|text| % BLOCK] + more && |next| == BLOCK
    ensures Holds(compress, start, text + more, compress(res, block), next)
  {
    var r := |text| % BLOCK;
    var both := text + more;
    assert |both| % BLOCK == 0 && Cut(|both|) == |both|;
    assert both[..|both|] == both == text[..Cut(|text|)] + block;
    FoldBoth(compress, start, text[..Cut(|text|)], block);
    FoldBlock(compress, res, block);
  }

  // ---------------------------------------------------------------- the final blocks

  lemma PaddingMeans(n: nat)
    ensures var r := n % BLOCK;
            && 0 <= r < BLOCK
            && (r < 56 ==> Padding(n) == [1] + Zeros(55 - r) + Le(8 * n % TWO_64, 8))
            && (r >= 56 ==> Padding(n) == [1] + Zeros(63 - r) + Zeros(56) + Le(8 * n % TWO_64, 8))
  {
    hide Le;
    var r := n % BLOCK;
    if r < 56 {
      assert (2 * BLOCK - 8 - 1 - r) % BLOCK == 55 - r;
    } else {
      assert (2 * BLOCK - 8 - 1 - r) % BLOCK == 119 - r;
      assert Zeros(119 - r) == Zeros(63 - r) + Zeros(56);
      assert [1] + (Zeros(63 - r) + Zeros(56)) == [1] + Zeros(63 - r) + Zeros(56);
    }
  }

  /** The padded message consists of whole blocks, and the padding is the shortest possible. */
  lemma PaddedIsWhole(n: nat)
    ensures (n + |Padding(n)|) % BLOCK == 0 && 9 <= |Padding(n)| < 9 + BLOCK
  {
    hide Padding, Le, Zeros;
    PaddingMeans(n);
    var r := n % BLOCK;
    SameInBlock(n + |Padding(n)|, r + |Padding(n)|, n / BLOCK);
  }

  lemma HoldsMeans<S>(compress: (S, seq<byte>) -> S, start: S, text: seq<byte>, res: S, tmp: seq<byte>)
    requires Holds(compress, start, text, res, tmp)
    ensures var r := |text| % BLOCK; var a := text[..Cut(|text|)];
            r <= |tmp| == BLOCK && |a| % BLOCK == 0 && res == Fold(compress, start, a) && text == a + tmp[..r]
  {
    hide Fold;
  }

  /** One block holds the rest, the padding and the length. */
  lemma FinishOne<S>(compress: (S, seq<byte>) -> S, start: S, text: seq<byte>, res: S, tmp: seq<byte>, n: nat, last: seq<byte>)
    requires Holds(compress, start, text, res, tmp) && n % BLOCK == |text| % BLOCK && |text| % BLOCK < 56
    requires last == tmp[..|text| % BLOCK] + [1] + Zeros(55 - |text| % BLOCK) + Le(8 * n % TWO_64, 8)
    ensures Fold(compress, start, text + Padding(n)) == compress(res, last)
  {
    hide Fold, Holds, Padding, Zeros, Le, Cut;
    HoldsMeans(compress, start, text, res, tmp);
    PaddingMeans(n);
    var a := text[..Cut(|text|)];
    assert text + Padding(n) == a + last;
    FoldBoth(compress, start, a, last);
    FoldBlock(compress, res, last);
  }

  /** There is no room for the length: another block holds it. */
  lemma FinishTwo<S>(compress: (S, seq<byte>) -> S, start: S, text: seq<byte>, res: S, tmp: seq<byte>, n: nat, first: seq<byte>,
                     last: seq<byte>)
    requires Holds(compress, start, text, res, tmp) && n % BLOCK == |text| % BLOCK && |text| % BLOCK >= 56
    requires first == tmp[..|text| % BLOCK] + [1] + Zeros(63 - |text| % BLOCK) && last == Zeros(56) + Le(8 * n % TWO_64, 8)
    ensures Fold(compress, start, text + Padding(n)) == compress(compress(res, first), last)
  {
    hide Fold, Holds, Padding, Zeros, Le, Cut;
    HoldsMeans(compress, start, text, res, tmp);
    PaddingMeans(n);
    var a := text[..Cut(|text|)];
    assert text + Padding(n) == a + (first + last);
    FoldBoth(compress, start, a, first + last);
    FoldBoth(compress, res, first, last);
    FoldBlock(compress, res, first);
    FoldBlock(compress, compress(res, first), last);
  }

  lemma SameRest(a: nat, b: nat, k: nat)
    requires a == b + TWO_64 * k
    ensures a % TWO_64 == b % TWO_64
  {
  }

  lemma SameInBlock(a: nat, b: nat, k: nat)
    requires a == b + BLOCK * k
    ensures a % BLOCK == b % BLOCK
  {
  }

  lemma LengthWraps(n: nat)
    ensures 8 * (n % TWO_64) % TWO_64 == 8 * n % TWO_64 && (n % TWO_64) % BLOCK == n % BLOCK
  {
    var q, r := n / TWO_64, n % TWO_64;
    assert n == r + TWO_64 * q;
    SameRest(8 * n, 8 * r, 8 * q);
    SameInBlock(n, r, TWO_64 / BLOCK * q);
  }

  /** The counter after `n` bytes since `base`, which wraps around. */
  ghost predicate Counts(pos: nat, base: nat, n: nat) {
    base % BLOCK == 0 && pos == (base + n) % TWO_64
  }

  lemma CountsMore(pos: nat, base: nat, n: nat, k: nat)
    requires Counts(pos, base, n)
    ensures Counts((pos + k) % TWO_64, base, n + k)
  {
    var q := (base + n) / TWO_64;
    SameRest(base + n + k, pos + k, q);
  }

  lemma CountsInBlock(pos: nat, base: nat, n: nat)
    requires Counts(pos, base, n)
    ensures pos % BLOCK == n % BLOCK == (base + n) % BLOCK && 8 * pos % TWO_64 == 8 * (base + n) % TWO_64
  {
    LengthWraps(base + n);
    SameInBlock(base + n, n, base / BLOCK);
  }

  // ---------------------------------------------------------------- the hash object

  method Copy(a: array<byte>, at: nat, b: seq<byte>)
    requires at + |b| <= a.Length
    modifies a
    ensures a[..] == old(a[..at]) + b + old(a[at + |b|..])
  {
    forall k | 0 <= k < |b| { a[at + k] := b[k]; }
  }

  method Clear(a: array<byte>, from: nat, to: nat)
    requires from <= to <= a.Length
    modifies a
    ensures a[..] == old(a[..from]) + Zeros(to - from) + old(a[to..])
  {
    forall k | from <= k < to { a[k] := 0; }
  }

  class TigerHash<S> {
    const compress: (S, seq<byte>) -> S
    const tmp: array<byte>
    var res: S
    var pos: nat
    /** The state and the number of bytes at the construction, and the bytes since then. */
    ghost var start: S
    ghost var base: nat
    ghost var text: seq<byte>

    ghost predicate Valid()
      reads this, tmp
    {
      && Counts(pos, base, |text|)
      && Holds(compress, start, text, res, tmp[..])
    }

    constructor (compress: (S, seq<byte>) -> S, initial: S)
      ensures Valid() && fresh(tmp) && this.compress == compress
      ensures start == initial && base == 0 && text == []
    {
      this.compress, tmp := compress, new byte[BLOCK];
      res, pos, start, base, text := initial, 0, initial, 0, [];
    }

    /** Goes on from a saved state, which is possible at a block boundary. */
    constructor Resume(compress: (S, seq<byte>) -> S, pos: nat, saved: S)
      requires pos < TWO_64
      ensures pos % BLOCK == 0 ==> Valid()
      ensures fresh(tmp) && this.compress == compress && start == saved && base == pos && text == []
    {
      this.compress, tmp := compress, new byte[BLOCK];
      res, this.pos, start, base, text := saved, pos, saved, pos, [];
    }

    method Update(data: seq<byte>)
      requires Valid()
      modifies this, tmp
      ensures Valid() && text == old(text) + data && start == old(start) && base == old(base)
    {
      hide Fold, Holds, Counts;
      var tmppos := pos % BLOCK;
      var str, length := 0, |data|;
      CountsInBlock(pos, base, |text|);
      if tmppos > 0 {
        var n := if length < BLOCK - tmppos then length else BLOCK - tmppos;
        str, length := n, length - n;
        Fill(data[..n]);
      }
      assert text == old(text) + data[..str];
      Bulk(data, str);
    }

    /** The first branch of `update`: bytes for the buffer. */
    method Fill(more: seq<byte>)
      requires Valid() && pos % BLOCK + |more| <= BLOCK
      modifies this, tmp
      ensures Valid() && text == old(text) + more && start == old(start) && base == old(base)
    {
      hide Fold, Holds, Counts, Cut;
      var tmppos, n := pos % BLOCK, |more|;
      CountsInBlock(pos, base, |text|);
      CountsMore(pos, base, |text|, n);
      ghost var was := tmp[..];
      HoldsLength(compress, start, text, res, was);
      Copy(tmp, tmppos, more);
      pos := (pos + n) % TWO_64;
      if tmppos + n == BLOCK {
        assert tmp[..] == was[..tmppos] + more;
        HoldsBlock(compress, start, text, res, was, more, tmp[..], tmp[..]);
        res := compress(res, tmp[..]);
      } else {
        HoldsMore(compress, start, text, res, was, more, tmp[..]);
      }
      text := text + more;
    }

    /** The bulk of the data, and then the rest. */
    method Bulk(data: seq<byte>, from: nat)
      requires Valid() && from <= |data| && (from < |data| ==> |text| % BLOCK == 0)
      modifies this, tmp
      ensures Valid() && text == old(text) + data[from..] && start == old(start) && base == old(base)
    {
      hide Fold, Holds, Counts, Cut;
      var str, length := from, |data| - from;
      assert data[from..from] == [];
      while length >= BLOCK
        invariant from <= str <= |data| && length == |data| - str
        invariant Valid() && (length > 0 ==> |text| % BLOCK == 0)
        invariant text == old(text) + data[from..str] && start == old(start) && base == old(base)
        decreases length
      {
        BulkBlock(data[str..str + BLOCK]);
        assert data[from..str + BLOCK] == data[from..str] + data[str..str + BLOCK];
        str, length := str + BLOCK, length - BLOCK;
      }
      var rest := data[str..];
      assert data[from..] == data[from..str] + rest;
      Keep(rest);
    }

    /** Copies the rest to the buffer. */
    method Keep(rest: seq<byte>)
      requires Valid() && |rest| < BLOCK && (rest != [] ==> |text| % BLOCK == 0)
      modifies this, tmp
      ensures Valid() && text == old(text) + rest && start == old(start) && base == old(base)
    {
      hide Fold, Holds, Counts, Cut;
      ghost var was := tmp[..];
      HoldsLength(compress, start, text, res, was);
      Copy(tmp, 0, rest);
      if rest != [] {
        HoldsMore(compress, start, text, res, was, rest, tmp[..]);
      } else {
        assert tmp[..] == was && text + rest == text;
      }
      CountsMore(pos, base, |text|, |rest|);
      pos := (pos + |rest|) % TWO_64;
      text := text + rest;
    }

    /** One turn of the loop: a block that is not copied. */
    method BulkBlock(block: seq<byte>)
      requires Valid() && |text| % BLOCK == 0 && |block| == BLOCK
      modifies this
      ensures Valid() && text == old(text) + block && |text| % BLOCK == 0 && start == old(start) && base == old(base)
    {
      hide Fold, Holds, Counts, Cut;
      HoldsLength(compress, start, text, res, tmp[..]);
      assert tmp[..][..0] + block == block;
      HoldsBlock(compress, start, text, res, tmp[..], block, block, tmp[..]);
      CountsMore(pos, base, |text|, BLOCK);
      res := compress(res, block);
      text := text + block;
      pos := (pos + BLOCK) % TWO_64;
    }

    /** The digest of all bytes since the construction, padded for all bytes that the hash has seen. */
    method Finalize() returns (r: S)
      requires Valid()
      modifies this, tmp
      ensures r == Fold(compress, old(start), old(text) + Padding(old(base) + |old(text)|))
    {
      hide Fold, Holds, Zeros, Le, Padding, Counts;
      ghost var total := base + |text|;
      ghost var was := tmp[..];
      CountsInBlock(pos, base, |text|);
      HoldsLength(compress, start, text, res, was);
      var tmppos := pos % BLOCK;
      ghost var r0 := tmppos;
      tmp[tmppos] := 1;
      tmppos := tmppos + 1;
      assert tmp[..][..tmppos] == was[..r0] + [1];
      if tmppos > BLOCK - 8 {
        Clear(tmp, tmppos, BLOCK);
        ghost var first := tmp[..];
        assert first == was[..r0] + [1] + Zeros(63 - r0);
        res := compress(res, tmp[..]);
        Clear(tmp, 0, BLOCK);
        Copy(tmp, 56, Le(8 * pos % TWO_64, 8));
        ZerosCut();
        ghost var last := tmp[..];
        assert last == Zeros(56) + Le(8 * total % TWO_64, 8);
        FinishTwo(compress, start, text, old(res), was, total, first, last);
      } else {
        Clear(tmp, tmppos, BLOCK - 8);
        Copy(tmp, 56, Le(8 * pos % TWO_64, 8));
        ghost var last := tmp[..];
        assert last == was[..r0] + [1] + Zeros(55 - r0) + Le(8 * total % TWO_64, 8);
        FinishOne(compress, start, text, res, was, total, last);
      }
      res := compress(res, tmp[..]);
      r := res;
    }
  }

  lemma HoldsLength<S>(compress: (S, seq<byte>) -> S, start: S, text: seq<byte>, res: S, tmp: seq<byte>)
    requires Holds(compress, start, text, res, tmp)
    ensures |tmp| == BLOCK
  {
  }

  lemma ZerosCut()
    ensures Zeros(BLOCK)[..56] == Zeros(56)
  {
  }

  // ---------------------------------------------------------------- whole runs

  /** However the message is cut into updates, the digest is the digest of the message. */
  method HashOf<S>(compress: (S, seq<byte>) -> S, initial: S, chunks: seq<seq<byte>>) returns (r: S)
    ensures r == Digest(compress, initial, Concat(chunks))
  {
    hide Fold, Padding, Holds, Counts, Cut, Concat;
    var h := new TigerHash(compress, initial);
    UpdateAll(h, chunks);
    r := h.Finalize();
    assert [] + Concat(chunks) == Concat(chunks);
  }

  method UpdateAll<S>(h: TigerHash<S>, chunks: seq<seq<byte>>)
    requires h.Valid()
    modifies h, h.tmp
    ensures h.Valid() && h.text == old(h.text) + Concat(chunks) && h.start == old(h.start) && h.base == old(h.base)
  {
    var i := 0;
    assert chunks[0..] == chunks;
    while i < |chunks|
      invariant 0 <= i <= |chunks| && h.Valid() && h.start == old(h.start) && h.base == old(h.base)
      invariant h.text + Concat(chunks[i..]) == old(h.text) + Concat(chunks)
      decreases |chunks| - i
    {
      assert chunks[i..][1..] == chunks[i + 1..];
      assert (h.text + chunks[i]) + Concat(chunks[i + 1..]) == h.text + (chunks[i] + Concat(chunks[i + 1..]));
      h.Update(chunks[i]);
      i := i + 1;
    }
    assert h.text + [] == h.text;
  }

  /** Saving the state and the position at a block boundary and going on from there gives the same digest. */
  method Resumed<S>(compress: (S, seq<byte>) -> S, initial: S, before: seq<seq<byte>>, after: seq<seq<byte>>) returns (r: S)
    requires |Concat(before)| % BLOCK == 0
    ensures r == Digest(compress, initial, Concat(before) + Concat(after))
  {
    hide Padding, Fold, Holds, Counts, Cut, Concat;
    var h := new TigerHash(compress, initial);
    UpdateAll(h, before);
    var saved, pos := h.res, h.pos;
    ghost var a, b := Concat(before), Concat(after);
    assert [] + a == a;
    HoldsWhole(compress, initial, a, saved, h.tmp[..]);
    CountsMeans(pos, 0, |a|);
    LengthWraps(|a|);
    var g := new TigerHash.Resume(compress, pos, saved);
    UpdateAll(g, after);
    assert [] + b == b;
    r := g.Finalize();
    PaddingWraps(|a|, |b|);
    FoldBoth(compress, initial, a, b + Padding(|a| + |b|));
    assert a + (b + Padding(|a| + |b|)) == (a + b) + Padding(|a + b|);
  }

  lemma HoldsWhole<S>(compress: (S, seq<byte>) -> S, start: S, text: seq<byte>, res: S, tmp: seq<byte>)
    requires Holds(compress, start, text, res, tmp) && |text| % BLOCK == 0
    ensures res == Fold(compress, start, text)
  {
    hide Fold;
    assert text[..|text|] == text;
  }

  lemma CountsMeans(pos: nat, base: nat, n: nat)
    requires Counts(pos, base, n)
    ensures pos == (base + n) % TWO_64 < TWO_64
  {
  }

  lemma PaddingWraps(a: nat, b: nat)
    ensures Padding(a % TWO_64 + b) == Padding(a + b)
  {
    hide Le, Zeros;
    var q := a / TWO_64;
    assert a == TWO_64 * q + a % TWO_64;
    assert (a % TWO_64 + b) % BLOCK == (a + b) % BLOCK;
    assert 8 * (a + b) == TWO_64 * (8 * q) + 8 * (a % TWO_64 + b);
    assert 8 * (a + b) % TWO_64 == 8 * (a % TWO_64 + b) % TWO_64;
  }
}
