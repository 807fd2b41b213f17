/** `base64_encode` of `src/crypto.rs`: the standard alphabet and `=`
    padding of section 4 of RFC 4648, written into a caller's buffer one
    whole four-symbol quantum at a time. The shifts and masks of the source
    are written as the equal divisions and remainders on 0..255. */
module Base64 {
  import opened Common

  const PAD: byte := 61

  /** The symbol of a six-bit value: `A`-`Z`, `a`-`z`, `0`-`9`, `+`, `/`. */
  function Sym(v: nat): (c: byte)
    requires v < 64
    ensures c != PAD
  {
    if v < 26 then 65 + v
    else if v < 52 then 97 + (v - 26)
    else if v < 62 then 48 + (v - 52)
    else if v == 62 then 43
    else 47
  }

  /** The value of a symbol, the reverse lookup of the alphabet. */
  function SymValue(c: byte): (r: Option<nat>)
    ensures r.Some? ==> r.value < 64
  {
    if 65 <= c <= 90 then Some(c - 65)
    else if 97 <= c <= 122 then Some(c - 97 + 26)
    else if 48 <= c <= 57 then Some(c - 48 + 52)
    else if c == 43 then Some(62)
    else if c == 47 then Some(63)
    else None
  }

  /** The table and its reverse lookup are inverse bijections. */
  lemma SymRoundTrip(v: nat, c: byte)
    requires v < 64
    ensures SymValue(Sym(v)) == Some(v)
    ensures SymValue(c) == Some(v) ==> Sym(v) == c
  {
  }

  predicate IsSym(c: byte) {
    SymValue(c).Some?
  }

  /** Three bytes as four symbols. */
  function Quad3(b1: byte, b2: byte, b3: byte): seq<byte> {
    [Sym(b1 / 4), Sym(b1 % 4 * 16 + b2 / 16), Sym(b2 % 16 * 4 + b3 / 64), Sym(b3 % 64)]
  }

  /** Two final bytes: three symbols and one `=`. */
  function Quad2(b1: byte, b2: byte): seq<byte> {
    [Sym(b1 / 4), Sym(b1 % 4 * 16 + b2 / 16), Sym(b2 % 16 * 4), PAD]
  }

  /** One final byte: two symbols and two `=`. */
  function Quad1(b1: byte): seq<byte> {
    [Sym(b1 / 4), Sym(b1 % 4 * 16), PAD, PAD]
  }

  /** The encoding of the whole input, group by group. */
  function Encode(data: seq<byte>): (r: seq<byte>)
    ensures |r| == 4 * ((|data| + 2) / 3)
  {
    if |data| >= 3 then Quad3(data[0], data[1], data[2]) + Encode(data[3..])
    else if |data| == 2 then Quad2(data[0], data[1])
    else if |data| == 1 then Quad1(data[0])
    else []
  }

  /** The number of `=` at the end of an encoding. */
  function Pads(n: nat): nat {
    (3 - n % 3) % 3
  }

  /** Every byte of `r` is a symbol except the last `pads` ones, which
      are `=`. */
  predicate Shaped(r: seq<byte>, pads: nat) {
    forall k :: 0 <= k < |r| ==> (r[k] == PAD <==> |r| - pads <= k) && (r[k] != PAD ==> IsSym(r[k]))
  }

  /** The `=` of an encoding are its last `Pads` bytes, and all before
      them are symbols. */
  lemma {:induction false} EncodeShape(data: seq<byte>)
    ensures Shaped(Encode(data), Pads(|data|))
    decreases |data|
  {
    if |data| >= 3 {
      EncodeShape(data[3..]);
      SymAll(data[0] / 4, data[0] % 4 * 16 + data[1] / 16, data[1] % 16 * 4 + data[2] / 64, data[2] % 64);
      assert Pads(|data|) == Pads(|data| - 3);
      ShapedCons(Quad3(data[0], data[1], data[2]), Encode(data[3..]), Pads(|data| - 3));
    } else if |data| == 2 {
      SymAll(data[0] / 4, data[0] % 4 * 16 + data[1] / 16, data[1] % 16 * 4, 0);
      assert Pads(2) == 1;
    } else if |data| == 1 {
      SymAll(data[0] / 4, data[0] % 4 * 16, 0, 0);
      assert Pads(1) == 2;
    }
  }

  /** A whole quantum of symbols in front keeps the shape. */
  lemma ShapedCons(q: seq<byte>, rest: seq<byte>, pads: nat)
    requires |q| == 4 && Shaped(rest, pads) && pads <= 2 && (pads > 0 ==> |rest| >= 4)
    requires q[0] != PAD && q[1] != PAD && q[2] != PAD && q[3] != PAD
    requires IsSym(q[0]) && IsSym(q[1]) && IsSym(q[2]) && IsSym(q[3])
    ensures Shaped(q + rest, pads)
  {
    var r := q + rest;
    forall k | 0 <= k < |r|
      ensures (r[k] == PAD <==> |r| - pads <= k) && (r[k] != PAD ==> IsSym(r[k]))
    {
      if k >= 4 {
        assert r[k] == rest[k - 4];
      }
    }
  }

  lemma SymAll(a: nat, b: nat, c: nat, d: nat)
    requires a < 64 && b < 64 && c < 64 && d < 64
    ensures IsSym(Sym(a)) && IsSym(Sym(b)) && IsSym(Sym(c)) && IsSym(Sym(d))
  {
    SymRoundTrip(a, 0);
    SymRoundTrip(b, 0);
    SymRoundTrip(c, 0);
    SymRoundTrip(d, 0);
  }

  /** Encoding a cut at a group boundary encodes the two halves apart. */
  lemma EncodeSplit(data: seq<byte>, i: nat)
    requires i <= |data| && i % 3 == 0
    ensures Encode(data) == Encode(data[..i]) + Encode(data[i..])
  {
    assert data == data[..i] + data[i..];
    EncodeAppend(data[..i], data[i..]);
  }

  /** Whole groups in front are encoded in front. */
  lemma {:induction false} EncodeAppend(x: seq<byte>, y: seq<byte>)
    requires |x| % 3 == 0
    ensures Encode(x + y) == Encode(x) + Encode(y)
    decreases |x|
  {
    if |x| > 0 {
      EncodeAppend(x[3..], y);
      EncodeAppendStep(x, y);
    } else {
      assert x + y == y;
    }
  }

  /** One group in front of an append that already splits. */
  lemma EncodeAppendStep(x: seq<byte>, y: seq<byte>)
    requires |x| >= 3
    requires Encode(x[3..] + y) == Encode(x[3..]) + Encode(y)
    ensures Encode(x + y) == Encode(x) + Encode(y)
  {
    var q := Quad3(x[0], x[1], x[2]);
    DropAppend(x, y, 3);
    EncodeGroup(x + y);
    EncodeGroup(x);
    Associative(q, Encode(x[3..]), Encode(y));
  }

  lemma DropAppend(x: seq<byte>, y: seq<byte>, k: nat)
    requires k <= |x|
    ensures (x + y)[k..] == x[k..] + y
    ensures forall i :: 0 <= i < k ==> (x + y)[i] == x[i]
  {
  }

  lemma Associative(a: seq<byte>, b: seq<byte>, c: seq<byte>)
    ensures a + (b + c) == (a + b) + c
  {
  }

  /** The first group of three bytes is encoded in front of the rest. */
  lemma EncodeGroup(data: seq<byte>)
    requires |data| >= 3
    ensures Encode(data) == Quad3(data[0], data[1], data[2]) + Encode(data[3..])
  {
  }

  /** The whole quanta of the encoding that fit in `cap` bytes. */
  function Written(data: seq<byte>, cap: nat): seq<byte> {
    Encode(data)[..4 * Min((|data| + 2) / 3, cap / 4)]
  }

  /** What is written fits and is whole quanta. */
  lemma WrittenLength(data: seq<byte>, cap: nat)
    ensures |Written(data, cap)| <= cap && |Written(data, cap)| % 4 == 0
  {
    var m := Min((|data| + 2) / 3, cap / 4);
    assert |Written(data, cap)| == 4 * m;
    assert 4 * (cap / 4) <= cap;
  }

  /** `base64_encode` into a buffer of `cap` bytes: as many whole quanta of
      the encoding as fit, the count being the returned length. */
  method EncodeInto(data: seq<byte>, cap: nat) returns (out: seq<byte>)
    ensures out == Written(data, cap)
    ensures |out| <= cap && |out| % 4 == 0
  {
    out := [];
    var i := 0;
    while i + 2 < |data|
      invariant i <= |data| && i % 3 == 0
      invariant out == Encode(data[..i]) && |out| <= cap
    {
      if |out| + 4 > cap {
        break;
      }
      EncodeStep(data, i);
      out := out + Quad3(data[i], data[i + 1], data[i + 2]);
      i := i + 3;
    }
    out := EncodeTail(data, i, out, cap);
  }

  /** The padded last quantum, written only when four bytes are free. */
  method EncodeTail(data: seq<byte>, i: nat, out: seq<byte>, cap: nat) returns (r: seq<byte>)
    requires i <= |data| && i % 3 == 0 && out == Encode(data[..i]) && |out| <= cap
    requires i + 3 <= |data| ==> |out| + 4 > cap
    ensures r == Written(data, cap)
    ensures |r| <= cap && |r| % 4 == 0
  {
    var remaining := |data| - i;
    if remaining > 0 && |out| + 4 <= cap {
      r := out + LastQuad(data, i);
      TailWritten(data, i, cap);
    } else {
      r := out;
      EncodeStop(data, i, cap);
    }
    WrittenLength(data, cap);
  }

  /** The padded quantum of the one or two bytes left after `i`. */
  function LastQuad(data: seq<byte>, i: nat): seq<byte>
    requires i < |data| <= i + 2
  {
    if |data| == i + 1 then Quad1(data[i]) else Quad2(data[i], data[i + 1])
  }

  /** Writing the short last group completes the encoding. */
  lemma TailWritten(data: seq<byte>, i: nat, cap: nat)
    requires i % 3 == 0 && i < |data| <= i + 2
    requires |Encode(data[..i])| + 4 <= cap
    ensures Encode(data[..i]) + LastQuad(data, i) == Written(data, cap)
  {
    EncodeLast(data, i);
    assert Encode(data) == Encode(data[..i]) + LastQuad(data, i);
    EncodeFits(data, cap);
  }

  /** One more group of three. */
  lemma EncodeStep(data: seq<byte>, i: nat)
    requires i + 3 <= |data| && i % 3 == 0
    ensures Encode(data[..i + 3]) == Encode(data[..i]) + Quad3(data[i], data[i + 1], data[i + 2])
  {
    EncodeSplit(data[..i + 3], i);
    assert data[..i + 3][..i] == data[..i];
    assert data[..i + 3][i..] == [data[i], data[i + 1], data[i + 2]];
  }

  /** The last, short group. */
  lemma EncodeLast(data: seq<byte>, i: nat)
    requires i % 3 == 0 && i < |data| <= i + 2
    ensures |data| == i + 1 ==> Encode(data) == Encode(data[..i]) + Quad1(data[i])
    ensures |data| == i + 2 ==> Encode(data) == Encode(data[..i]) + Quad2(data[i], data[i + 1])
  {
    EncodeSplit(data, i);
  }

  /** Stopping at a group boundary leaves a prefix of the encoding. */
  lemma EncodeStop(data: seq<byte>, i: nat, cap: nat)
    requires i <= |data| && i % 3 == 0 && |Encode(data[..i])| <= cap
    requires i + 3 <= |data| ==> |Encode(data[..i])| + 4 > cap
    requires i < |data| <= i + 2 ==> |Encode(data[..i])| + 4 > cap
    ensures Encode(data[..i]) == Written(data, cap)
  {
    EncodeSplit(data, i);
    var k := i / 3;
    assert (i + 2) / 3 == k;
    if i < |data| {
      assert cap / 4 == k;
      assert (|data| + 2) / 3 >= k + 1;
    } else {
      assert (|data| + 2) / 3 == k;
      assert k <= cap / 4;
    }
  }

  /** An encoding that fits the buffer is written whole. */
  lemma EncodeFits(data: seq<byte>, cap: nat)
    requires |Encode(data)| <= cap
    ensures Encode(data) == Written(data, cap)
  {
    var k := (|data| + 2) / 3;
    assert 4 * k <= cap;
    assert k <= cap / 4;
    assert Min(k, cap / 4) == k;
  }

  // ---------------------------------------------------------------- decoding

  /** The bytes one quantum stands for; `=` only at the end, and only where
      the encoder puts it. */
  function DecodeQuad(q: seq<byte>): (r: Option<seq<byte>>)
    requires |q| == 4
    ensures r.Some? ==> 1 <= |r.value| <= 3
  {
    var v0, v1, v2, v3 := SymValue(q[0]), SymValue(q[1]), SymValue(q[2]), SymValue(q[3]);
    if v0.None? || v1.None? then None
    else if v2.Some? && v3.Some? then
      Some([v0.value * 4 + v1.value / 16, v1.value % 16 * 16 + v2.value / 4, v2.value % 4 * 64 + v3.value])
    else if v2.Some? then
      if q[3] == PAD then Some([v0.value * 4 + v1.value / 16, v1.value % 16 * 16 + v2.value / 4]) else None
    else if v3.None? && q[2] == PAD && q[3] == PAD then Some([v0.value * 4 + v1.value / 16])
    else None
  }

  /** The reverse of `Encode`: quanta of four, a short group only last. */
  function Decode(s: seq<byte>): Option<seq<byte>> {
    if |s| == 0 then Some([])
    else if |s| < 4 then None
    else match DecodeQuad(s[..4])
      case None => None
      case Some(b) =>
        if |b| < 3 && |s| > 4 then None
        else match Decode(s[4..])
          case None => None
          case Some(rest) => Some(b + rest)
  }

  lemma Quad3Decodes(b1: byte, b2: byte, b3: byte)
    ensures DecodeQuad(Quad3(b1, b2, b3)) == Some([b1, b2, b3])
  {
    var a, b, c, d := b1 / 4, b1 % 4 * 16 + b2 / 16, b2 % 16 * 4 + b3 / 64, b3 % 64;
    SymRoundTrip(a, 0);
    SymRoundTrip(b, 0);
    SymRoundTrip(c, 0);
    SymRoundTrip(d, 0);
    Split4(b1);
    Split16(b1 % 4, b2 / 16);
    Split4(b2);
    Split16(b2 / 16, b2 % 16);
    Split4x(b2 % 16, b3 / 64);
    Split64(b3);
  }

  lemma Quad2Decodes(b1: byte, b2: byte)
    ensures DecodeQuad(Quad2(b1, b2)) == Some([b1, b2])
  {
    var a, b, c := b1 / 4, b1 % 4 * 16 + b2 / 16, b2 % 16 * 4;
    SymRoundTrip(a, 0);
    SymRoundTrip(b, 0);
    SymRoundTrip(c, 0);
    Split4(b1);
    Split16(b1 % 4, b2 / 16);
    Split16(b2 / 16, b2 % 16);
    Split4x(b2 % 16, 0);
  }

  lemma Quad1Decodes(b1: byte)
    ensures DecodeQuad(Quad1(b1)) == Some([b1])
  {
    SymRoundTrip(b1 / 4, 0);
    SymRoundTrip(b1 % 4 * 16, 0);
    Split4(b1);
    Split16(b1 % 4, 0);
  }

  /** The bit-field arithmetic the symbols rely on. */
  lemma Split4(x: byte)
    ensures x / 4 * 4 + x % 4 == x && x / 4 < 64 && x % 4 < 4
    ensures x / 16 < 16 && x % 16 < 16 && x / 16 * 16 + x % 16 == x
    ensures x / 64 < 4 && x % 64 < 64 && x / 64 * 64 + x % 64 == x
  {
  }

  lemma Split16(hi: nat, lo: nat)
    requires lo < 16
    ensures (hi * 16 + lo) / 16 == hi && (hi * 16 + lo) % 16 == lo
  {
  }

  lemma Split4x(hi: nat, lo: nat)
    requires lo < 4
    ensures (hi * 4 + lo) / 4 == hi && (hi * 4 + lo) % 4 == lo
  {
  }

  lemma Split64(x: byte)
    ensures x / 64 * 64 + x % 64 == x && x % 64 < 64 && x / 64 < 4
  {
  }

  /** Decoding undoes encoding, so distinct inputs never share an
      encoding. */
  lemma {:induction false} DecodeEncode(data: seq<byte>)
    ensures Decode(Encode(data)) == Some(data)
    decreases |data|
  {
    if |data| >= 3 {
      Quad3Decodes(data[0], data[1], data[2]);
      DecodeEncode(data[3..]);
      DecodeCons(Quad3(data[0], data[1], data[2]), Encode(data[3..]), [data[0], data[1], data[2]], data[3..]);
      assert data == [data[0], data[1], data[2]] + data[3..];
    } else if |data| == 2 {
      Quad2Decodes(data[0], data[1]);
      assert data == [data[0], data[1]];
      DecodeLastQuad(Quad2(data[0], data[1]), data);
    } else if |data| == 1 {
      Quad1Decodes(data[0]);
      assert data == [data[0]];
      DecodeLastQuad(Quad1(data[0]), data);
    }
  }

  /** A full quantum in front decodes in front. */
  lemma DecodeCons(q: seq<byte>, rest: seq<byte>, b: seq<byte>, tail: seq<byte>)
    requires |q| == 4 && DecodeQuad(q) == Some(b) && |b| == 3 && Decode(rest) == Some(tail)
    ensures Decode(q + rest) == Some(b + tail)
  {
    assert (q + rest)[..4] == q && (q + rest)[4..] == rest;
  }

  /** A lone last quantum decodes to its bytes. */
  lemma DecodeLastQuad(q: seq<byte>, b: seq<byte>)
    requires |q| == 4 && DecodeQuad(q) == Some(b)
    ensures Decode(q) == Some(b)
  {
    assert q[..4] == q && q[4..] == [];
    assert b + [] == b;
  }

  lemma EncodeInjective(a: seq<byte>, b: seq<byte>)
    requires Encode(a) == Encode(b)
    ensures a == b
  {
    DecodeEncode(a);
    DecodeEncode(b);
  }

  /** A SHA-1 digest (20 bytes) encodes as 27 symbols and one `=`. */
  lemma DigestEncoding(digest: seq<byte>)
    requires |digest| == 20
    ensures |Encode(digest)| == 28 && Encode(digest)[27] == PAD
    ensures forall k :: 0 <= k < 27 ==> IsSym(Encode(digest)[k])
  {
    EncodeShape(digest);
    assert Pads(20) == 1;
  }
}
