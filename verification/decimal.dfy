/** Unsigned decimal text, as written by every digit loop of the shell
    (`print_number`, the Content-Length writers, `write_number_to_session`):
    "0" for zero, otherwise the digits most significant first. */
module Decimal {
  import opened Common

  predicate IsDigit(b: byte) {
    48 <= b <= 57
  }

  predicate AllDigits(s: seq<byte>) {
    forall i :: 0 <= i < |s| ==> IsDigit(s[i])
  }

  function DigitChar(d: nat): (c: byte)
    requires d < 10
    ensures IsDigit(c) && c - 48 == d
  {
    48 + d
  }

  /** The decimal text of `n`. */
  function Digits(n: nat): (r: seq<byte>)
    ensures 1 <= |r| && AllDigits(r)
    ensures r[0] == 48 <==> n == 0
    decreases n
  {
    if n < 10 then [DigitChar(n)] else Digits(n / 10) + [DigitChar(n % 10)]
  }

  /** The number a string of decimal digits denotes (most significant first). */
  function Value(s: seq<byte>): nat
    requires AllDigits(s)
  {
    if |s| == 0 then 0 else 10 * Value(s[..|s| - 1]) + (s[|s| - 1] - 48)
  }

  /** Reading back the digits gives the number: `Digits` is injective and
      the Content-Length a writer emits denotes the length it was given. */
  lemma {:induction false} ValueOfDigits(n: nat)
    ensures Value(Digits(n)) == n
    decreases n
  {
    if n >= 10 {
      var d := Digits(n);
      assert d[..|d| - 1] == Digits(n / 10);
      ValueOfDigits(n / 10);
    }
  }

  lemma DigitsInjective(m: nat, n: nat)
    requires Digits(m) == Digits(n)
    ensures m == n
  {
    ValueOfDigits(m);
    ValueOfDigits(n);
  }

  /** The shell's digit loop: collect `n % 10` least significant first into a
      scratch array, then emit the scratch array in reverse. */
  method WriteDigits(n: nat) returns (r: seq<byte>)
    ensures r == Digits(n)
  {
    if n == 0 {
      assert Digits(0) == [DigitChar(0)];
      return [48];
    }
    var num: nat := n;
    var scratch: seq<byte> := [];
    while num > 0
      invariant num <= n
      invariant num > 0 ==> Digits(n) == Digits(num) + Reverse(scratch)
      invariant num == 0 ==> Digits(n) == Reverse(scratch)
      decreases num
    {
      var d := DigitChar(num % 10);
      ReverseSnoc(scratch, d);
      if num >= 10 {
        assert Digits(num) == Digits(num / 10) + [d];
        assert Digits(num) + Reverse(scratch) == Digits(num / 10) + ([d] + Reverse(scratch));
      } else {
        assert Digits(num) == [d];
      }
      scratch := scratch + [d];
      num := num / 10;
    }
    r := Reverse(scratch);
  }

  lemma ReverseSnoc<T>(s: seq<T>, x: T)
    ensures Reverse(s + [x]) == [x] + Reverse(s)
  {
    var a, b := Reverse(s + [x]), [x] + Reverse(s);
    assert |a| == |b|;
    forall i | 0 <= i < |a| ensures a[i] == b[i] {
      if i > 0 {
        assert a[i] == (s + [x])[|s| - i];
      }
    }
  }

  function Reverse<T>(s: seq<T>): (r: seq<T>)
    ensures |r| == |s|
    ensures forall i :: 0 <= i < |s| ==> r[i] == s[|s| - 1 - i]
  {
    if |s| == 0 then [] else Reverse(s[1..]) + [s[0]]
  }
}
