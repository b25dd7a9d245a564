/** Base32 as in adchpp/Encoder.cpp. Bytes and characters are 8-bit words; bit 0 is the highest bit of the first byte. */
module Base32 {

  const UNKNOWN: bv8 := 0xFF

  /** `base32Alphabet`: the letters, then the digits from 2 on. */
  function Letter(w: bv8): bv8 {
    if w < 26 then w + 65 else w + 24
  }

  /** The alphabet of section 6 of RFC 4648: A to Z, then 2 to 7. */
  lemma LetterIsStandard(k: nat)
    requires k < 32
    ensures Letter(k as bv8) as int == if k < 26 then 'A' as int + k else '2' as int + (k - 26)
  {
  }

  /** `base32Table`: letters of either case, digits, and nothing else. */
  function Value(c: bv8): bv8 {
    if 65 <= c <= 90 then c - 65
    else if 97 <= c <= 122 then c - 97
    else if 50 <= c <= 55 then c - 24
    else UNKNOWN
  }

  /** The table inverts the alphabet: it knows exactly its characters, and the lower case of its letters. */
  lemma TableInverts(c: bv8)
    ensures Value(c) != UNKNOWN ==> Value(c) < 32 && (c == Letter(Value(c)) || (Value(c) < 26 && c == Letter(Value(c)) + 32))
    ensures c < 32 ==> Value(Letter(c)) == c && (c < 26 ==> Value(Letter(c) + 32) == c)
  {
  }

  function Bit8(b: bv8, k: nat): bool {
    if k == 0 then b & 0x80 != 0 else if k == 1 then b & 0x40 != 0
    else if k == 2 then b & 0x20 != 0 else if k == 3 then b & 0x10 != 0
    else if k == 4 then b & 8 != 0 else if k == 5 then b & 4 != 0
    else if k == 6 then b & 2 != 0 else b & 1 != 0
  }

  lemma BitsTell(a: bv8, b: bv8)
    requires Bit8(a, 0) == Bit8(b, 0) && Bit8(a, 1) == Bit8(b, 1) && Bit8(a, 2) == Bit8(b, 2) && Bit8(a, 3) == Bit8(b, 3)
    requires Bit8(a, 4) == Bit8(b, 4) && Bit8(a, 5) == Bit8(b, 5) && Bit8(a, 6) == Bit8(b, 6) && Bit8(a, 7) == Bit8(b, 7)
    ensures a == b
  {
  }

  /** Bit `k` of a byte string, and zero behind it. */
  function ByteBit(s: seq<bv8>, k: nat): bool {
    k < 8 * |s| && Bit8(s[k / 8], k % 8)
  }

  /** Bit `k` of a string of five-bit values. */
  function ValueBit(v: seq<bv8>, k: nat): bool {
    k < 5 * |v| && Bit8(v[k / 5], 3 + k % 5)
  }

  lemma Divided(n: nat, q: nat, r: nat, k: nat)
    requires k == n * q + r && r < n && (n == 5 || n == 8)
    ensures k / n == q && k % n == r
  {
  }

  // ---------------------------------------------------------------- encoding

  /** The five bits from bit `index` of `a` on, continued in `b`: the code of the two branches of the loop. */
  function Spanning(a: bv8, b: bv8, index: nat): bv8
    requires 3 < index < 8
  {
    ((a & (0xFF >> index)) << ((index + 5) % 8)) | (b >> (8 - (index + 5) % 8))
  }

  function Within(a: bv8, index: nat): bv8
    requires index <= 3
  {
    (a >> (8 - (index + 5))) & 0x1F
  }

  /** Bit `t` of a five-bit value. */
  function Bit5(w: bv8, t: nat): bool {
    Bit8(w, 3 + t)
  }

  lemma SpanningBits(a: bv8, b: bv8, index: nat, t: nat)
    requires 3 < index < 8 && t < 5
    ensures Spanning(a, b, index) < 32
    ensures Bit5(Spanning(a, b, index), t) == if index + t < 8 then Bit8(a, index + t) else Bit8(b, index + t - 8)
  {
    if index == 4 {} else if index == 5 {} else if index == 6 {} else {}
  }

  lemma WithinBits(a: bv8, index: nat, t: nat)
    requires index <= 3 && t < 5
    ensures Within(a, index) < 32 && Bit5(Within(a, index), t) == Bit8(a, index + t)
  {
    if index == 0 {} else if index == 1 {} else if index == 2 {} else {}
  }

  /** The values of the recognised characters before the zero that ends a C string. */
  function Values(s: seq<bv8>): seq<bv8> {
    if s == [] || s[0] == 0 then []
    else if Value(s[0]) == UNKNOWN then Values(s[1..])
    else [Value(s[0])] + Values(s[1..])
  }

  ghost predicate AreLetters(v: seq<bv8>, text: seq<bv8>) {
    |v| == |text| && forall j :: 0 <= j < |v| ==> v[j] < 32 && text[j] == Letter(v[j])
  }

  lemma {:induction false} ValuesOfLetters(v: seq<bv8>, text: seq<bv8>)
    requires AreLetters(v, text)
    ensures Values(text) == v
  {
    if v != [] {
      assert text[0] == Letter(v[0]) && v[0] < 32;
      ValuesOfLetters(v[1..], text[1..]);
    }
  }

  /** An encoding: one character for every five bits begun, and the same bits. */
  ghost predicate IsEncoding(src: seq<bv8>, text: seq<bv8>) {
    && |text| == (8 * |src| + 4) / 5
    && AreLetters(Values(text), text)
    && forall k: nat :: ValueBit(Values(text), k) == ByteBit(src, k)
  }

  lemma FiveBitsTell(a: bv8, b: bv8)
    requires a < 32 && b < 32
    requires Bit5(a, 0) == Bit5(b, 0) && Bit5(a, 1) == Bit5(b, 1) && Bit5(a, 2) == Bit5(b, 2) && Bit5(a, 3) == Bit5(b, 3)
          && Bit5(a, 4) == Bit5(b, 4)
    ensures a == b
  {
  }

  /** A byte string has only one encoding. */
  lemma EncodingIsUnique(src: seq<bv8>, a: seq<bv8>, b: seq<bv8>)
    requires IsEncoding(src, a) && IsEncoding(src, b)
    ensures a == b
  {
    hide Bit8, Letter, Values, ByteBit;
    var v, w := Values(a), Values(b);
    forall j | 0 <= j < |v| ensures v[j] == w[j] {
      forall t | 0 <= t < 5 ensures Bit5(v[j], t) == Bit5(w[j], t) {
        var k := 5 * j + t;
        Divided(5, j, t, k);
        assert ValueBit(v, k) == ByteBit(src, k) == ValueBit(w, k);
      }
      FiveBitsTell(v[j], w[j]);
    }
  }

  /** The next value holds the next five bits. */
  lemma ValueStep(src: seq<bv8>, v: seq<bv8>, i: nat, index: nat, w: bv8)
    requires i < |src| && index < 8 && 8 * i + index == 5 * |v| && SameBits(v, src)
    requires w == if index > 3 then Spanning(src[i], if i + 1 < |src| then src[i + 1] else 0, index) else Within(src[i], index)
    ensures w < 32
    ensures SameBits(v + [w], src)
  {
    hide Bit8, Spanning, Within, ByteBit, ValueBit;
    var n := if i + 1 < |src| then src[i + 1] else 0;
    if index > 3 { SpanningBits(src[i], n, index, 0); } else { WithinBits(src[i], index, 0); }
    forall k: nat | k < 5 * |v + [w]| ensures ValueBit(v + [w], k) == ByteBit(src, k) {
      ValueBitAppend(v, w, k);
      if k >= 5 * |v| {
        var t := k - 5 * |v|;
        if index > 3 { SpanningBits(src[i], n, index, t); } else { WithinBits(src[i], index, t); }
        ByteBitAt(src, i, index + t, k);
      }
    }
  }

  lemma ValueBitAppend(v: seq<bv8>, w: bv8, k: nat)
    ensures ValueBit(v + [w], k) == if k < 5 * |v| then ValueBit(v, k) else k < 5 * |v| + 5 && Bit5(w, k - 5 * |v|)
  {
    hide Bit8;
    if k < 5 * |v| {
      assert (v + [w])[k / 5] == v[k / 5];
    } else if k < 5 * |v| + 5 {
      Divided(5, |v|, k - 5 * |v|, k);
    }
  }

  lemma ZeroBits(k: nat)
    ensures !Bit8(0, k)
  {
  }

  /** A bit counted from byte `i`, perhaps in the next byte, or behind the end. */
  lemma ByteBitAt(src: seq<bv8>, i: nat, m: nat, k: nat)
    requires i < |src| && m < 16 && k == 8 * i + m
    ensures ByteBit(src, k) == if m < 8 then Bit8(src[i], m) else if i + 1 < |src| then Bit8(src[i + 1], m - 8) else Bit8(0, m - 8)
  {
    hide Bit8;
    if m < 8 { Divided(8, i, m, k); } else { Divided(8, i + 1, m - 8, k); ZeroBits(m - 8); }
  }

  /** `toBase32`: the encoding is appended to `dst`. */
  method ToBase32(src: seq<bv8>, dst: seq<bv8>) returns (r: seq<bv8>)
    ensures dst <= r && IsEncoding(src, r[|dst|..])
  {
    hide *;
    r := dst;
    var i, index := 0, 0;
    ghost var v: seq<bv8> := [];
    assert r[|dst|..] == [];
    NoLetters();
    while i < |src|
      invariant 0 <= i <= |src| && 0 <= index < 8 && 8 * i + index == 5 * |v| < 8 * |src| + 5
      invariant dst <= r && AreLetters(v, r[|dst|..])
      invariant SameBits(v, src)
      decreases 8 * (|src| - i) - index
    {
      ghost var at, from := i, index;
      var word: bv8;
      if index > 3 {
        word := Spanning(src[i], if i + 1 < |src| then src[i + 1] else 0, index);
        index := (index + 5) % 8;
        i := i + 1;
      } else {
        word := Within(src[i], index);
        index := (index + 5) % 8;
        if index == 0 {
          i := i + 1;
        }
      }
      ValueStep(src, v, at, from, word);
      assert (r + [Letter(word)])[|dst|..] == r[|dst|..] + [Letter(word)];
      LettersAppend(v, r[|dst|..], word);
      v := v + [word];
      r := r + [Letter(word)];
    }
    Encoded(src, v, r[|dst|..]);
  }

  /** The values so far hold bits of the source. */
  ghost predicate SameBits(v: seq<bv8>, src: seq<bv8>) {
    forall k: nat :: k < 5 * |v| ==> ValueBit(v, k) == ByteBit(src, k)
  }

  lemma NoLetters()
    ensures AreLetters([], []) && forall src :: SameBits([], src)
  {
  }

  lemma LettersAppend(v: seq<bv8>, text: seq<bv8>, w: bv8)
    requires AreLetters(v, text) && w < 32
    ensures AreLetters(v + [w], text + [Letter(w)])
  {
    hide Letter;
  }

  lemma Encoded(src: seq<bv8>, v: seq<bv8>, text: seq<bv8>)
    requires AreLetters(v, text) && SameBits(v, src) && 8 * |src| <= 5 * |v| < 8 * |src| + 5
    ensures IsEncoding(src, text)
  {
    hide Bit8, Letter, ByteBit, ValueBit, Values;
    ValuesOfLetters(v, text);
    forall k: nat ensures ValueBit(v, k) == ByteBit(src, k) {
      if k >= 5 * |v| { BehindEnd(v, src, k); }
    }
  }

  lemma BehindEnd(v: seq<bv8>, src: seq<bv8>, k: nat)
    requires k >= 5 * |v| >= 8 * |src|
    ensures !ValueBit(v, k) && !ByteBit(src, k)
  {
  }

  // ---------------------------------------------------------------- decoding

  /** The bits of the values, as many as there is room for, and zeros behind them. */
  ghost predicate Holds(v: seq<bv8>, s: seq<bv8>) {
    forall k: nat :: k < 8 * |s| ==> ByteBit(s, k) == ValueBit(v, k)
  }

  ghost predicate IsDecoding(text: seq<bv8>, s: seq<bv8>) {
    Holds(Values(text), s)
  }

  /** What is put into the byte that has room from bit `index` on. */
  function High(w: bv8, index: nat): bv8
    requires index < 8
  {
    if index == 3 then w
    else if index < 3 then w << (8 - (index + 5) % 8)
    else w >> ((index + 5) % 8)
  }

  /** What is put into the byte behind it. */
  function Low(w: bv8, index: nat): bv8
    requires 3 < index < 8
  {
    w << (8 - (index + 5) % 8)
  }

  lemma OrBits(a: bv8, b: bv8, t: nat)
    requires t < 8
    ensures Bit8(a | b, t) == (Bit8(a, t) || Bit8(b, t))
  {
  }

  lemma HighLeft(w: bv8, index: nat)
    requires index <= 3
    ensures High(w, index) == if index == 0 then w << 3 else if index == 1 then w << 2 else if index == 2 then w << 1 else w
  {
    if index == 0 { assert 8 - (index + 5) % 8 == 3; }
    else if index == 1 { assert 8 - (index + 5) % 8 == 2; }
    else if index == 2 { assert 8 - (index + 5) % 8 == 1; }
  }

  lemma HighRight(w: bv8, index: nat)
    requires 3 < index < 8
    ensures High(w, index) == if index == 4 then w >> 1 else if index == 5 then w >> 2 else if index == 6 then w >> 3 else w >> 4
  {
    if index == 4 { assert (index + 5) % 8 == 1; }
    else if index == 5 { assert (index + 5) % 8 == 2; }
    else if index == 6 { assert (index + 5) % 8 == 3; }
    else { assert (index + 5) % 8 == 4; }
  }

  lemma HighBits(w: bv8, index: nat, t: nat)
    requires index < 8 && t < 8 && w < 32
    ensures Bit8(High(w, index), t) == (index <= t < index + 5 && Bit5(w, t - index))
  {
    hide High;
    if index <= 3 { HighLeft(w, index); } else { HighRight(w, index); }
  }

  /** The bits from `index` on of a byte whose bits were zero from there on. */
  lemma PutHigh(d: bv8, w: bv8, index: nat, t: nat)
    requires index < 8 && t < 8 && w < 32
    requires forall m :: index <= m < 8 ==> !Bit8(d, m)
    ensures Bit8(d | High(w, index), t) == if t < index then Bit8(d, t) else t < index + 5 && Bit5(w, t - index)
  {
    hide Bit8, High;
    OrBits(d, High(w, index), t);
    HighBits(w, index, t);
  }

  /** The other bits, in the next byte. */
  lemma LowMeans(w: bv8, index: nat)
    requires 3 < index < 8
    ensures Low(w, index) == if index == 4 then w << 7 else if index == 5 then w << 6 else if index == 6 then w << 5 else w << 4
  {
  }

  lemma PutLow(w: bv8, index: nat, t: nat)
    requires 3 < index < 8 && t < 8 && w < 32
    ensures Bit8(Low(w, index), t) == (t < index - 3 && Bit5(w, 8 - index + t))
  {
    hide Low;
    LowMeans(w, index);
  }

  lemma KnownIsSmall(c: bv8)
    requires Value(c) != UNKNOWN
    ensures Value(c) < 32
  {
  }

  /** The bytes after a value has been stored at bit `index` of byte `offset`. */
  function Store(s: seq<bv8>, offset: nat, index: nat, w: bv8): (r: seq<bv8>)
    requires offset < |s| && index < 8
    ensures |r| == |s|
  {
    var h := s[offset := s[offset] | High(w, index)];
    if index <= 3 || offset + 1 == |s| then h else h[offset + 1 := h[offset + 1] | Low(w, index)]
  }

  lemma ZeroBehind(v: seq<bv8>, s: seq<bv8>, offset: nat, index: nat)
    requires Holds(v, s) && offset < |s| && index < 8 && 8 * offset + index == 5 * |v|
    ensures forall m :: index <= m < 8 ==> !Bit8(s[offset], m)
    ensures offset + 1 < |s| ==> s[offset + 1] == 0
  {
    hide Bit8;
    forall m | index <= m < 8 ensures !Bit8(s[offset], m) {
      var k := 8 * offset + m;
      Divided(8, offset, m, k);
      assert ByteBit(s, k) == ValueBit(v, k);
    }
    if offset + 1 < |s| {
      forall m | 0 <= m < 8 ensures Bit8(s[offset + 1], m) == Bit8(0, m) {
        var k := 8 * (offset + 1) + m;
        Divided(8, offset + 1, m, k);
        assert ByteBit(s, k) == ValueBit(v, k);
        ZeroBits(m);
      }
      BitsTell(s[offset + 1], 0);
    }
  }

  lemma StoreStep(v: seq<bv8>, s: seq<bv8>, offset: nat, index: nat, w: bv8)
    requires Holds(v, s) && offset < |s| && index < 8 && 8 * offset + index == 5 * |v| && w < 32
    ensures Holds(v + [w], Store(s, offset, index, w))
  {
    ZeroBehind(v, s, offset, index);
    var r := Store(s, offset, index, w);
    forall k: nat | k < 8 * |r| ensures ByteBit(r, k) == ValueBit(v + [w], k) {
      StoreBit(v, s, offset, index, w, k / 8, k % 8, k);
    }
  }

  lemma StoreBit(v: seq<bv8>, s: seq<bv8>, offset: nat, index: nat, w: bv8, o: nat, t: nat, k: nat)
    requires Holds(v, s) && offset < |s| && index < 8 && 8 * offset + index == 5 * |v| && w < 32
    requires o < |s| && t < 8 && k == 8 * o + t
    requires forall m :: index <= m < 8 ==> !Bit8(s[offset], m)
    requires offset + 1 < |s| ==> s[offset + 1] == 0
    ensures ByteBit(Store(s, offset, index, w), k) == ValueBit(v + [w], k)
  {
    hide *;
    var r := Store(s, offset, index, w);
    StoreAt(s, offset, index, w, o);
    ByteBitIs(s, o, t, k);
    ByteBitIs(r, o, t, k);
    ValueBitAppend(v, w, k);
    HoldsAt(v, s, k);
    if k >= 5 * |v| { BehindValues(v, k); }
    if o == offset {
      PutHigh(s[offset], w, index, t);
      assert t >= index ==> k - 5 * |v| == t - index;
    } else if o == offset + 1 && index > 3 {
      PutLow(w, index, t);
      OrZero(Low(w, index));
      assert k - 5 * |v| == 8 - index + t;
    }
  }

  lemma HoldsAt(v: seq<bv8>, s: seq<bv8>, k: nat)
    requires Holds(v, s) && k < 8 * |s|
    ensures ByteBit(s, k) == ValueBit(v, k)
  {
  }

  lemma ByteBitIs(s: seq<bv8>, o: nat, t: nat, k: nat)
    requires o < |s| && t < 8 && k == 8 * o + t
    ensures ByteBit(s, k) == Bit8(s[o], t)
  {
    hide Bit8;
    Divided(8, o, t, k);
  }

  lemma StoreAt(s: seq<bv8>, offset: nat, index: nat, w: bv8, o: nat)
    requires offset < |s| && index < 8 && o < |s|
    ensures Store(s, offset, index, w)[o] ==
            if o == offset then s[o] | High(w, index) else if o == offset + 1 && index > 3 then s[o] | Low(w, index) else s[o]
  {
    hide High, Low;
  }

  lemma BehindValues(v: seq<bv8>, k: nat)
    requires k >= 5 * |v|
    ensures !ValueBit(v, k)
  {
  }

  lemma OrZero(w: bv8)
    ensures 0 | w == w
  {
  }

  method OrInto(dst: array<bv8>, o: nat, b: bv8)
    requires o < dst.Length
    modifies dst
    ensures dst[..] == old(dst[..])[o := old(dst[o]) | b]
  {
    dst[o] := dst[o] | b;
  }

  /** `fromBase32`: unrecognised characters are skipped, and values without room are dropped. The room is looked at after a byte
      is full, so that a value is stored where there is none exactly when there is none at all; this is where `ok` is false. */
  method FromBase32(src: seq<bv8>, dst: array<bv8>) returns (ok: bool)
    modifies dst
    ensures ok <==> dst.Length > 0 || Values(src) == []
    ensures ok ==> IsDecoding(src, dst[..])
  {
    hide *;
    ok := true;
    forall o | 0 <= o < dst.Length { dst[o] := 0; }
    var i, index, offset := 0, 0, 0;
    ghost var v: seq<bv8> := [];
    AllZero(dst[..]);
    assert src[0..] == src && [] + Values(src) == Values(src);
    while i < |src| && src[i] != 0
      invariant 0 <= i <= |src| && 0 <= index < 8
      invariant dst.Length == 0 ==> v == []
      invariant Values(src) == v + Values(src[i..])
      invariant 8 * offset + index == 5 * |v| && (dst.Length > 0 ==> offset < dst.Length)
      invariant Holds(v, dst[..])
      decreases |src| - i
    {
      ValuesStep(src, i, v);
      var tmp := Value(src[i]);
      if tmp != UNKNOWN {
        if offset >= dst.Length {
          return false;
        }
        KnownIsSmall(src[i]);
        StoreStep(v, dst[..], offset, index, tmp);
        StoreMeans(dst[..], offset, index, tmp);
        v := v + [tmp];
        OrInto(dst, offset, High(tmp, index));
        if index >= 3 {
          offset := offset + 1;
          if offset == dst.Length {
            Filled(v, Values(src[i + 1..]), dst[..]);
            break;
          }
          if index > 3 {
            OrInto(dst, offset, Low(tmp, index));
          }
        }
        index := (index + 5) % 8;
      }
      i := i + 1;
    }
    if i == |src| || src[i] == 0 { ValuesEnd(src, i, v); }
    DecodingMeans(src, dst[..]);
  }

  lemma DecodingMeans(text: seq<bv8>, s: seq<bv8>)
    ensures IsDecoding(text, s) <==> Holds(Values(text), s)
  {
    hide Holds, Values;
  }

  lemma ValuesStep(src: seq<bv8>, i: nat, v: seq<bv8>)
    requires i < |src| && src[i] != 0
    ensures v + Values(src[i..])
         == if Value(src[i]) == UNKNOWN then v + Values(src[i + 1..]) else (v + [Value(src[i])]) + Values(src[i + 1..])
    ensures Values(src[i..]) == [] ==> Value(src[i]) == UNKNOWN && Values(src[i + 1..]) == []
  {
    hide Value;
    assert src[i..][1..] == src[i + 1..];
  }

  lemma ValuesEnd(src: seq<bv8>, i: nat, v: seq<bv8>)
    requires i <= |src| && (i == |src| || src[i] == 0)
    ensures v + Values(src[i..]) == v
  {
  }

  lemma AllZero(s: seq<bv8>)
    requires forall o :: 0 <= o < |s| ==> s[o] == 0
    ensures Holds([], s)
  {
    forall k: nat | k < 8 * |s| ensures ByteBit(s, k) == ValueBit([], k) { ZeroBits(k % 8); }
  }

  lemma StoreMeans(s: seq<bv8>, offset: nat, index: nat, w: bv8)
    requires offset < |s| && index < 8
    ensures var h := s[offset := s[offset] | High(w, index)];
            Store(s, offset, index, w) == if index <= 3 || offset + 1 == |s| then h else h[offset + 1 := h[offset + 1] | Low(w, index)]
  {
    hide High, Low;
  }

  /** Once all bytes are full, further values do not matter. */
  lemma Filled(v: seq<bv8>, rest: seq<bv8>, s: seq<bv8>)
    requires Holds(v, s) && 5 * |v| >= 8 * |s|
    ensures Holds(v + rest, s)
  {
    hide Bit8;
    forall k: nat | k < 8 * |s| ensures ByteBit(s, k) == ValueBit(v + rest, k) {
      assert ByteBit(s, k) == ValueBit(v, k);
      assert (v + rest)[k / 5] == v[k / 5];
    }
  }

  // ---------------------------------------------------------------- the round trip

  /** Decoding an encoding into as many bytes as were encoded gives them back. */
  lemma RoundTrip(src: seq<bv8>, text: seq<bv8>, s: seq<bv8>)
    requires IsEncoding(src, text) && IsDecoding(text, s) && |s| == |src|
    ensures s == src
  {
    hide Bit8, Values, ValueBit;
    forall o | 0 <= o < |s| ensures s[o] == src[o] {
      forall t | 0 <= t < 8 ensures Bit8(s[o], t) == Bit8(src[o], t) {
        var k := 8 * o + t;
        Divided(8, o, t, k);
        assert ByteBit(s, k) == ValueBit(Values(text), k) == ByteBit(src, k);
      }
      BitsTell(s[o], src[o]);
    }
  }

  /** Characters that are not recognised change nothing. */
  lemma {:induction false} JunkIsSkipped(a: seq<bv8>, junk: seq<bv8>, b: seq<bv8>)
    requires forall j :: 0 <= j < |junk| ==> Value(junk[j]) == UNKNOWN && junk[j] != 0
    ensures Values(a + junk + b) == Values(a + b)
    decreases |a|, |junk|
  {
    hide Value;
    if a != [] {
      JunkIsSkipped(a[1..], junk, b);
      assert (a + junk + b)[1..] == a[1..] + junk + b && (a + b)[1..] == a[1..] + b;
    } else if junk != [] {
      JunkIsSkipped(a, junk[1..], b);
      assert (a + junk + b)[1..] == a + junk[1..] + b;
    } else {
      assert a + junk + b == a + b;
    }
  }

  /** The same letter in the other case. */
  predicate SameLetter(c: bv8, d: bv8) {
    c == d || (65 <= c <= 90 && d == c + 32) || (65 <= d <= 90 && c == d + 32)
  }

  /** Neither does the case of letters. */
  lemma {:induction false} CaseDoesNotMatter(a: seq<bv8>, b: seq<bv8>)
    requires |a| == |b| && forall j :: 0 <= j < |a| ==> SameLetter(a[j], b[j])
    ensures Values(a) == Values(b)
  {
    if a != [] {
      assert SameLetter(a[0], b[0]);
      CaseDoesNotMatter(a[1..], b[1..]);
    }
  }

  /** Decoding depends on nothing but the values. */
  lemma DecodingIsUnique(a: seq<bv8>, b: seq<bv8>, s: seq<bv8>, t: seq<bv8>)
    requires Values(a) == Values(b) && |s| == |t| && IsDecoding(a, s) && IsDecoding(b, t)
    ensures s == t
  {
    hide Bit8, Values, ValueBit;
    forall o | 0 <= o < |s| ensures s[o] == t[o] {
      forall m | 0 <= m < 8 ensures Bit8(s[o], m) == Bit8(t[o], m) {
        var k := 8 * o + m;
        Divided(8, o, m, k);
        assert ByteBit(s, k) == ValueBit(Values(a), k) == ByteBit(t, k);
      }
      BitsTell(s[o], t[o]);
    }
  }
}
