/** Shared vocabulary of the model: bytes, optional values, NUL-terminated
    strings and the ASCII literals the shell writes. */
module Common {

  /** An unsigned 8-bit value, the element type of every buffer in the shell. */
  type byte = b: int | 0 <= b < 256

  datatype Option<+T> = None | Some(value: T)

  const NUL: byte := 0
  const TAB: byte := 9
  const LF: byte := 10
  const CR: byte := 13
  const SPACE: byte := 32
  const DOLLAR: byte := 36
  const EQUALS: byte := 61

  predicate IsAscii(s: string) {
    forall i :: 0 <= i < |s| ==> s[i] as int < 128
  }

  /** The bytes of an ASCII string literal (`b"..."` in the source). */
  function Ascii(s: string): (r: seq<byte>)
    requires IsAscii(s)
    ensures |r| == |s|
    ensures forall i :: 0 <= i < |s| ==> r[i] == s[i] as int
  {
    seq(|s|, i requires 0 <= i < |s| && IsAscii(s) => s[i] as int)
  }

  predicate NoNul(s: seq<byte>) {
    forall i :: 0 <= i < |s| ==> s[i] != NUL
  }

  /** Index of the first NUL of `s`, or `|s|` when there is none. */
  function CLen(s: seq<byte>): (n: nat)
    ensures n <= |s|
    ensures NoNul(s[..n])
    ensures n < |s| ==> s[n] == NUL
  {
    if |s| == 0 then 0
    else if s[0] == NUL then 0
    else
      var k := CLen(s[1..]);
      assert s[1..][..k] == s[1..k + 1];
      1 + k
  }

  /** The C string held in a NUL-padded buffer: everything before the first NUL. */
  function CStr(s: seq<byte>): (r: seq<byte>)
    ensures r <= s && NoNul(r)
    ensures |r| < |s| ==> s[|r|] == NUL
  {
    s[..CLen(s)]
  }

  lemma CStrOfNoNul(s: seq<byte>)
    requires NoNul(s)
    ensures CStr(s) == s
  {
  }

  /** A NUL-free prefix followed by a NUL (or by nothing) is the C string. */
  lemma CStrUnique(s: seq<byte>, p: seq<byte>)
    requires p <= s && NoNul(p)
    requires |p| < |s| ==> s[|p|] == NUL
    ensures CStr(s) == p
  {
  }

  /** `s` cut to at most `n` bytes: a copy into a buffer of length `n`. */
  function Trunc<T>(s: seq<T>, n: nat): (r: seq<T>)
    ensures r <= s
    ensures |r| == if |s| <= n then |s| else n
  {
    if |s| <= n then s else s[..n]
  }

  /** The pieces written one after another. */
  function Concat(pieces: seq<seq<byte>>): seq<byte> {
    if |pieces| == 0 then [] else pieces[0] + Concat(pieces[1..])
  }

  lemma {:induction false} ConcatSnoc(pieces: seq<seq<byte>>, last: seq<byte>)
    ensures Concat(pieces + [last]) == Concat(pieces) + last
    decreases |pieces|
  {
    if |pieces| == 0 {
      assert pieces + [last] == [last];
    } else {
      assert (pieces + [last])[1..] == pieces[1..] + [last];
      ConcatSnoc(pieces[1..], last);
    }
  }

  function Min(a: int, b: int): int {
    if a <= b then a else b
  }

  function Zeros(n: nat): (r: seq<byte>)
    ensures |r| == n
    ensures forall i :: 0 <= i < n ==> r[i] == NUL
  {
    seq(n, i => NUL)
  }

  /** `s` padded with NULs to `n` bytes: a fixed-size zeroed slot holding `s`. */
  function Pad(s: seq<byte>, n: nat): (r: seq<byte>)
    requires |s| <= n
    ensures |r| == n && s <= r
    ensures forall i :: |s| <= i < n ==> r[i] == NUL
  {
    s + Zeros(n - |s|)
  }
}
