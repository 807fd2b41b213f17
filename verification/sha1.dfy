/** `sha1` of `src/crypto.rs`: the SHA-1 message digest of FIPS 180-4
    (sections 5.1.1, 6.1.2), used only for the WebSocket accept key. The
    source pads into a fixed 128-byte buffer, which is the standard padding
    for inputs of at most 119 bytes and something else beyond; `Pad` is the
    standard padding and `Sha1` the digest the rest of the model uses. */
module Sha1 {
  import opened Common

  type word = bv32

  /** The five chaining words. */
  datatype State = State(a: word, b: word, c: word, d: word, e: word)

  const Init: State := State(0x67452301, 0xEFCDAB89, 0x98BADCFE, 0x10325476, 0xC3D2E1F0)

  const MARK: byte := 0x80
  const PadBuf: nat := 128
  const Pow64: nat := 0x1_0000_0000_0000_0000

  /** `v` as `k` big-endian bytes, keeping the low `8k` bits. */
  function BigEndian(v: nat, k: nat): (r: seq<byte>)
    ensures |r| == k
  {
    if k == 0 then [] else BigEndian(v / 256, k - 1) + [v % 256]
  }

  function Pow256(k: nat): (r: nat)
    ensures r > 0
  {
    if k == 0 then 1 else 256 * Pow256(k - 1)
  }

  /** Below `256^k`, distinct numbers have distinct big-endian bytes. */
  lemma {:induction false} BigEndianInjective(x: nat, y: nat, k: nat)
    requires x < Pow256(k) && y < Pow256(k)
    requires BigEndian(x, k) == BigEndian(y, k)
    ensures x == y
  {
    if k > 0 {
      var bx := BigEndian(x, k);
      var yb := BigEndian(y, k);
      assert bx[..k - 1] == BigEndian(x / 256, k - 1);
      assert yb[..k - 1] == BigEndian(y / 256, k - 1);
      assert bx[k - 1] == x % 256 && yb[k - 1] == y % 256;
      BigEndianInjective(x / 256, y / 256, k - 1);
    }
  }

  /** Padding of section 5.1.1: the message, the bit `1`, zeros up to 56
      modulo 64, and the message length in bits as a 64-bit big-endian
      number (taken modulo 2^64, as the source's `u64` multiplication). */
  function Pad(data: seq<byte>): (r: seq<byte>)
    ensures |r| % 64 == 0 && |data| + 9 <= |r| <= |data| + 72
    ensures r[..|data|] == data && r[|data|] == MARK
    ensures forall i :: |data| < i < |r| - 8 ==> r[i] == 0
    ensures r[|r| - 8..] == BigEndian((8 * |data|) % Pow64, 8)
  {
    var n := |data|;
    var r := data + [MARK] + Zeros((55 - n) % 64) + BigEndian((8 * n) % Pow64, 8);
    PadLength(n);
    assert r[..n] == data;
    r
  }

  /** The zero run brings the padded length to the next multiple of 64
      that leaves room for the marker and the 8-byte length. */
  lemma PadLength(n: nat)
    ensures var z := (55 - n) % 64;
      0 <= z < 64 && (n + 9 + z) % 64 == 0
  {
    var q := (55 - n) / 64;
    var z := (55 - n) % 64;
    assert 55 - n == 64 * q + z;
    assert n + 9 + z == 64 * (1 - q);
  }

  /** The padding keeps distinct messages apart (below 2^61 bytes, where the
      bit count does not wrap). */
  lemma PadInjective(a: seq<byte>, b: seq<byte>)
    requires |a| < Pow64 / 8 && |b| < Pow64 / 8
    requires Pad(a) == Pad(b)
    ensures a == b
  {
    var pa := Pad(a);
    assert Pow256(8) == Pow64 by {
      assert Pow256(4) == 0x1_0000_0000;
    }
    BigEndianInjective(8 * |a|, 8 * |b|, 8);
    assert pa[..|a|] == a;
    assert Pad(b)[..|b|] == b;
  }

  /** The padding loops of `sha1`: copy at most 128 bytes, then the marker,
      zeros and length bytes while room is left. */
  method PadLoop(data: seq<byte>) returns (padded: seq<byte>)
    ensures padded == Trunc(Pad(data), PadBuf)
  {
    var full := Pad(data);
    var n := |data|;
    padded := CopyLoop(data);
    if |padded| < PadBuf {
      assert padded == data;
      padded := padded + [MARK];
    }
    padded := ZeroLoop(full, n, padded);
    padded := LengthLoop(full, padded);
  }

  /** The copy loop: at most 128 bytes of the message. */
  method CopyLoop(data: seq<byte>) returns (padded: seq<byte>)
    ensures padded == Trunc(data, PadBuf)
  {
    padded := [];
    var k := 0;
    while k < |data|
      invariant k <= |data|
      invariant padded == Trunc(data[..k], PadBuf)
    {
      if |padded| < PadBuf {
        padded := padded + [data[k]];
      }
      assert data[..k + 1][..k] == data[..k];
      k := k + 1;
    }
    assert data[..k] == data;
  }

  /** The zero loop: zeros until the length is 56 modulo 64 or the buffer
      is full, which in the standard padding is exactly where the length
      field starts. */
  method ZeroLoop(full: seq<byte>, n: nat, padded: seq<byte>) returns (r: seq<byte>)
    requires |full| % 64 == 0 && n + 9 <= |full| <= n + 72
    requires forall i :: n < i < |full| - 8 ==> full[i] == 0
    requires padded <= full && |padded| <= PadBuf
    requires |padded| < PadBuf ==> |padded| == n + 1
    ensures r <= full && |r| <= PadBuf
    ensures |r| < PadBuf ==> |r| == |full| - 8
  {
    r := padded;
    while |r| % 64 != 56
      invariant r <= full && |r| <= PadBuf
      invariant |r| < PadBuf ==> n < |r| <= |full| - 8
      decreases PadBuf - |r|
    {
      if |r| < PadBuf {
        PadGap(n, |r|, |full|);
        r := r + [0];
      } else {
        break;
      }
    }
    if |r| < PadBuf {
      PadGap(n, |r|, |full|);
    }
  }

  /** The length loop: the eight length bytes while room is left. */
  method LengthLoop(full: seq<byte>, padded: seq<byte>) returns (r: seq<byte>)
    requires |full| >= 8 && padded <= full && |padded| <= PadBuf
    requires |padded| < PadBuf ==> |padded| == |full| - 8
    ensures r == Trunc(full, PadBuf)
  {
    r := padded;
    var i := 0;
    while i < 8
      invariant i <= 8
      invariant r <= full && |r| <= PadBuf
      invariant |r| < PadBuf ==> |r| == |full| - 8 + i
    {
      if |r| < PadBuf {
        r := r + [full[|full| - 8 + i]];
      }
      i := i + 1;
    }
  }

  /** Between the marker and the length field, the first position at 56
      modulo 64 is where the length field starts. */
  lemma PadGap(n: nat, p: nat, len: nat)
    requires len % 64 == 0 && n + 9 <= len <= n + 72 && n < p <= len - 8
    ensures p % 64 == 56 ==> p == len - 8
    ensures p % 64 != 56 ==> p < len - 8
  {
  }

  /** Up to 119 bytes the buffer holds the standard padding whole. */
  lemma PadAgrees(data: seq<byte>)
    requires |data| <= 119
    ensures Trunc(Pad(data), PadBuf) == Pad(data)
  {
  }

  /** A message of up to 55 bytes pads to one block; 56 to 119 bytes pad
      to two, which the 128-byte buffer holds. */
  lemma PadBlocks(data: seq<byte>)
    ensures |data| <= 55 ==> |Pad(data)| == 64
    ensures 56 <= |data| <= 119 ==> |Pad(data)| == 128
  {
  }

  /** From 120 bytes on, the buffer lacks the length field: a 120-byte
      message and the same message followed by its own padding marker and
      seven zeros fill the buffer identically. */
  lemma PadCollides(a: seq<byte>)
    requires |a| == 120
    ensures var b := a + [MARK] + Zeros(7);
      a != b && Trunc(Pad(a), PadBuf) == Trunc(Pad(b), PadBuf) == b
  {
    var b := a + [MARK] + Zeros(7);
    var pa := Pad(a);
    var pb := Pad(b);
    assert pa[..PadBuf] == b;
    assert pb[..PadBuf] == b;
  }

  // ---------------------------------------------------------------- compression

  /** Word `i` of a block, big-endian. */
  function BlockWord(block: seq<byte>, i: nat): word
    requires |block| == 64 && i < 16
  {
    ((block[4 * i] as word) << 24) | ((block[4 * i + 1] as word) << 16)
    | ((block[4 * i + 2] as word) << 8) | (block[4 * i + 3] as word)
  }

  /** One word of the schedule's recurrence: the XOR of four earlier words,
      rotated left by one bit. */
  function Mix(a: word, b: word, c: word, d: word): word {
    (a ^ b ^ c ^ d).RotateLeft(1)
  }

  /** The first `n` words of the message schedule of section 6.1.2. */
  function Schedule(block: seq<byte>, n: nat): (w: seq<word>)
    requires |block| == 64 && n <= 80
    ensures |w| == n
  {
    if n == 0 then []
    else
      var p := Schedule(block, n - 1);
      var i := n - 1;
      p + [if i < 16 then BlockWord(block, i)
           else Mix(p[i - 3], p[i - 8], p[i - 14], p[i - 16])]
  }

  /** A schedule is determined by its recurrence: each word is the block
      word or the rotated XOR of four earlier ones. */
  lemma {:induction false} ScheduleRecurrence(block: seq<byte>, n: nat, i: nat)
    requires |block| == 64 && i < n <= 80
    ensures i < 16 ==> Schedule(block, n)[i] == BlockWord(block, i)
    ensures 16 <= i ==>
      Schedule(block, n)[i] == Mix(Schedule(block, n)[i - 3], Schedule(block, n)[i - 8], Schedule(block, n)[i - 14], Schedule(block, n)[i - 16])
    decreases n
  {
    ScheduleStep(block, n);
    if i < n - 1 {
      ScheduleRecurrence(block, n - 1, i);
    }
  }

  /** Each schedule extends the previous one by one word. */
  lemma ScheduleStep(block: seq<byte>, n: nat)
    requires |block| == 64 && 0 < n <= 80
    ensures forall k :: 0 <= k < n - 1 ==> Schedule(block, n)[k] == Schedule(block, n - 1)[k]
    ensures var w := Schedule(block, n); var i := n - 1;
      w[i] == if i < 16 then BlockWord(block, i)
              else Mix(w[i - 3], w[i - 8], w[i - 14], w[i - 16])
  {
  }

  /** The two schedule loops of `sha1`. */
  method ScheduleLoop(block: seq<byte>) returns (w: seq<word>)
    requires |block| == 64
    ensures w == Schedule(block, 80)
  {
    w := seq(80, _ => 0);
    var i := 0;
    while i < 16
      invariant i <= 16 && |w| == 80
      invariant w[..i] == Schedule(block, i)
    {
      w := SetWord(block, w, i, BlockWord(block, i));
      i := i + 1;
    }
    while i < 80
      invariant 16 <= i <= 80 && |w| == 80
      invariant w[..i] == Schedule(block, i)
    {
      w := SetWord(block, w, i, Mix(w[i - 3], w[i - 8], w[i - 14], w[i - 16]));
      i := i + 1;
    }
    assert w[..80] == w;
  }

  /** `w[i] = x` for the next word of the schedule. */
  method SetWord(block: seq<byte>, w: seq<word>, i: nat, x: word) returns (w': seq<word>)
    requires |block| == 64 && i < |w| == 80 && w[..i] == Schedule(block, i)
    requires x == Schedule(block, i + 1)[i]
    ensures |w'| == 80 && w'[..i + 1] == Schedule(block, i + 1)
  {
    w' := w[i := x];
    assert w'[..i + 1] == w[..i] + [x];
  }

  /** The round function and constant of round `i`. */
  function F(i: nat, b: word, c: word, d: word): word {
    if i < 20 then (b & c) | (!b & d)
    else if i < 40 then b ^ c ^ d
    else if i < 60 then (b & c) | (b & d) | (c & d)
    else b ^ c ^ d
  }

  function K(i: nat): word {
    if i < 20 then 0x5A827999
    else if i < 40 then 0x6ED9EBA1
    else if i < 60 then 0x8F1BBCDC
    else 0xCA62C1D6
  }

  /** One round; `+` on `bv32` wraps like `wrapping_add`. */
  function Round(s: State, i: nat, wi: word): State {
    var temp := s.a.RotateLeft(5) + F(i, s.b, s.c, s.d) + s.e + K(i) + wi;
    State(temp, s.a, s.b.RotateLeft(30), s.c, s.d)
  }

  /** The first `n` rounds over a schedule. */
  function Rounds(s: State, w: seq<word>, n: nat): State
    requires n <= |w|
  {
    if n == 0 then s else Round(Rounds(s, w, n - 1), n - 1, w[n - 1])
  }

  function Add(h: State, s: State): State {
    State(h.a + s.a, h.b + s.b, h.c + s.c, h.d + s.d, h.e + s.e)
  }

  /** One 64-byte block folded into the chaining value. */
  function Compress(h: State, block: seq<byte>): State
    requires |block| == 64
  {
    Add(h, Rounds(h, Schedule(block, 80), 80))
  }

  /** The 80-round loop of `sha1`, one `Round` per pass. */
  method RoundsLoop(h: State, w: seq<word>) returns (s: State)
    requires |w| == 80
    ensures s == Rounds(h, w, 80)
  {
    s := h;
    var i := 0;
    while i < 80
      invariant i <= 80
      invariant s == Rounds(h, w, i)
    {
      s := Round(s, i, w[i]);
      i := i + 1;
    }
  }

  /** The chaining value after every block of a padded message. */
  function HashBlocks(h: State, padded: seq<byte>): State
    requires |padded| % 64 == 0
    decreases |padded|
  {
    if |padded| == 0 then h else HashBlocks(Compress(h, padded[..64]), padded[64..])
  }

  /** The five words as 20 big-endian bytes. */
  function Digest(h: State): (r: seq<byte>)
    ensures |r| == 20
  {
    WordBytes(h.a) + WordBytes(h.b) + WordBytes(h.c) + WordBytes(h.d) + WordBytes(h.e)
  }

  function WordBytes(x: word): (r: seq<byte>)
    ensures |r| == 4
  {
    [((x >> 24) & 0xff) as int, ((x >> 16) & 0xff) as int, ((x >> 8) & 0xff) as int, (x & 0xff) as int]
  }

  /** The SHA-1 digest of a message. */
  function Sha1(data: seq<byte>): (r: seq<byte>)
    ensures |r| == 20
  {
    Digest(HashBlocks(Init, Pad(data)))
  }

  /** `sha1` as written: the blocks of the 128-byte buffer. */
  method Sha1AsWritten(data: seq<byte>) returns (digest: seq<byte>)
    ensures |digest| == 20
    ensures digest == Digest(HashBlocks(Init, Trunc(Pad(data), PadBuf)[..|Trunc(Pad(data), PadBuf)| / 64 * 64]))
    ensures |data| <= 119 ==> digest == Sha1(data)
  {
    var padded := PadLoop(data);
    var chunks := |padded| / 64;
    var used := padded[..chunks * 64];
    var h := HashLoop(Init, used);
    digest := Digest(h);
    if |data| <= 119 {
      UsedIsPad(data);
    }
  }

  /** The block loop of `sha1`: each 64-byte block scheduled, run through
      the rounds and added in. */
  method HashLoop(h0: State, used: seq<byte>) returns (h: State)
    requires |used| % 64 == 0
    ensures h == HashBlocks(h0, used)
  {
    h := h0;
    var rest := used;
    while |rest| > 0
      invariant |rest| % 64 == 0
      invariant HashBlocks(h0, used) == HashBlocks(h, rest)
    {
      var block := rest[..64];
      var w := ScheduleLoop(block);
      var s := RoundsLoop(h, w);
      HashFirstBlock(h, rest);
      assert Add(h, s) == Compress(h, block);
      h := Add(h, s);
      rest := rest[64..];
    }
  }

  /** Up to 119 bytes the buffer holds the whole standard padding. */
  lemma UsedIsPad(data: seq<byte>)
    requires |data| <= 119
    ensures var t := Trunc(Pad(data), PadBuf); t[..|t| / 64 * 64] == Pad(data)
  {
    PadAgrees(data);
    PadBlocks(data);
  }

  lemma HashFirstBlock(h: State, padded: seq<byte>)
    requires |padded| % 64 == 0 && |padded| > 0
    ensures HashBlocks(h, padded) == HashBlocks(Compress(h, padded[..64]), padded[64..])
  {
  }

  /** The as-written digest of a 120-byte message equals that of a
      different, 128-byte message. */
  lemma Sha1AsWrittenCollides(a: seq<byte>)
    requires |a| == 120
    ensures var b := a + [MARK] + Zeros(7);
      a != b && Digest(HashBlocks(Init, Trunc(Pad(a), PadBuf)[..128])) ==
                Digest(HashBlocks(Init, Trunc(Pad(b), PadBuf)[..128]))
  {
    PadCollides(a);
  }
}
