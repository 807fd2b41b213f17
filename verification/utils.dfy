/** Byte-string helpers of `src/utils.rs`: equality, trimming, splitting,
    lexicographic order and the bubble sort used by `ls` and the directory
    listing. A directory entry is modelled by its name, i.e. the bytes of its
    256-byte slot before the first NUL. */
module Utils {
  import opened Common

  /** The first index at which `x` occurs in `s`, or `|s|` when it does not. */
  function IndexOf(s: seq<byte>, x: byte): (k: nat)
    ensures k <= |s|
    ensures forall i :: 0 <= i < k ==> s[i] != x
    ensures k < |s| ==> s[k] == x
  {
    if |s| == 0 then 0
    else if s[0] == x then 0
    else 1 + IndexOf(s[1..], x)
  }

  // ---------------------------------------------------------------- equality

  /** `bytes_equal`: the early-exit comparison loop decides equality. */
  method BytesEqual(a: seq<byte>, b: seq<byte>) returns (r: bool)
    ensures r <==> a == b
  {
    if |a| != |b| {
      return false;
    }
    var i := 0;
    while i < |a|
      invariant i <= |a|
      invariant a[..i] == b[..i]
    {
      if a[i] != b[i] {
        return false;
      }
      i := i + 1;
    }
    assert a == a[..i] && b == b[..i];
    return true;
  }

  // ---------------------------------------------------------------- trimming

  predicate IsNewline(b: byte) {
    b == LF || b == CR
  }

  /** `trim_newline`: strip every trailing CR and LF, nothing else. */
  function TrimNewline(buf: seq<byte>): (r: seq<byte>)
    ensures r <= buf
    ensures |r| == 0 || !IsNewline(r[|r| - 1])
    ensures forall i :: |r| <= i < |buf| ==> IsNewline(buf[i])
    decreases |buf|
  {
    if |buf| > 0 && IsNewline(buf[|buf| - 1]) then TrimNewline(buf[..|buf| - 1]) else buf
  }

  lemma TrimNewlineIdempotent(buf: seq<byte>)
    ensures TrimNewline(TrimNewline(buf)) == TrimNewline(buf)
  {
  }

  /** Bytes that `trim_spaces` removes from the end of a slice. */
  predicate IsTrailingPad(b: byte) {
    b == SPACE || b == NUL
  }

  /** The bounds `start` and `end` that `trim_spaces` computes: leading spaces
      (only ' ') are skipped, then trailing ' ' and NUL bytes down to `start`. */
  function TrimBounds(s: seq<byte>): (b: (nat, nat))
    ensures b.0 <= b.1 <= |s|
    ensures forall i :: 0 <= i < b.0 ==> s[i] == SPACE
    ensures b.0 == |s| || s[b.0] != SPACE
    ensures forall i :: b.1 <= i < |s| ==> IsTrailingPad(s[i])
    ensures b.1 == b.0 || !IsTrailingPad(s[b.1 - 1])
  {
    var start := LeadingSpaces(s);
    (start, TrailingEnd(s, start, |s|))
  }

  function LeadingSpaces(s: seq<byte>): (k: nat)
    ensures k <= |s|
    ensures forall i :: 0 <= i < k ==> s[i] == SPACE
    ensures k == |s| || s[k] != SPACE
  {
    if |s| == 0 || s[0] != SPACE then 0 else 1 + LeadingSpaces(s[1..])
  }

  function TrailingEnd(s: seq<byte>, start: nat, end: nat): (e: nat)
    requires start <= end <= |s|
    ensures start <= e <= end
    ensures forall i :: e <= i < end ==> IsTrailingPad(s[i])
    ensures e == start || !IsTrailingPad(s[e - 1])
    decreases end
  {
    if end > start && IsTrailingPad(s[end - 1]) then TrailingEnd(s, start, end - 1) else end
  }

  /** `trim_spaces`: the contiguous middle of `s` between the bounds above. */
  function TrimSpaces(s: seq<byte>): (r: seq<byte>)
    ensures r == s[TrimBounds(s).0..TrimBounds(s).1]
    ensures |r| == 0 || (r[0] != SPACE && !IsTrailingPad(r[|r| - 1]))
  {
    var b := TrimBounds(s);
    s[b.0..b.1]
  }

  lemma TrimSpacesIdempotent(s: seq<byte>)
    ensures TrimSpaces(TrimSpaces(s)) == TrimSpaces(s)
  {
    var r := TrimSpaces(s);
    var b := TrimBounds(r);
    if |r| > 0 {
      assert b.0 == 0;
      assert b.1 == |r|;
    }
  }

  /** A string that neither starts with a space nor ends in padding is left
      as it is. */
  lemma TrimSpacesFixed(s: seq<byte>)
    requires |s| == 0 || (s[0] != SPACE && !IsTrailingPad(s[|s| - 1]))
    ensures TrimSpaces(s) == s
  {
    var b := TrimBounds(s);
    if |s| > 0 {
      assert b.0 == 0;
      assert b.1 == |s|;
    }
  }

  // ---------------------------------------------------------------- splitting

  /** `split_first_word`: the bytes before the first space and the bytes after
      it; with no space the whole input is the word and the rest is empty. */
  function SplitFirstWord(input: seq<byte>): (r: (seq<byte>, seq<byte>))
    ensures SPACE !in r.0
    ensures SPACE in input ==> r.0 + [SPACE] + r.1 == input
    ensures SPACE !in input ==> r == (input, [])
  {
    var k := IndexOf(input, SPACE);
    if k < |input| then
      assert input == input[..k] + [SPACE] + input[k + 1..];
      (input[..k], input[k + 1..])
    else
      (input, [])
  }

  // ---------------------------------------------------------------- ordering

  /** Reference lexicographic order: the first differing byte decides, and a
      proper prefix comes before its extensions. */
  predicate LexLess(a: seq<byte>, b: seq<byte>)
    decreases |a|
  {
    if |a| == 0 then |b| > 0
    else if |b| == 0 then false
    else if a[0] != b[0] then a[0] < b[0]
    else LexLess(a[1..], b[1..])
  }

  /** `bytes_less_than`: the scan over the common length computes `LexLess`. */
  method BytesLessThan(a: seq<byte>, b: seq<byte>) returns (r: bool)
    ensures r == LexLess(a, b)
  {
    var minLen := if |a| < |b| then |a| else |b|;
    var i := 0;
    while i < minLen
      invariant i <= minLen
      invariant a[..i] == b[..i]
      invariant LexLess(a, b) == LexLess(a[i..], b[i..])
    {
      assert a[i..][1..] == a[i + 1..] && b[i..][1..] == b[i + 1..];
      if a[i] < b[i] {
        return true;
      } else if a[i] > b[i] {
        return false;
      }
      i := i + 1;
    }
    return |a| < |b|;
  }

  lemma {:induction false} LexLessIrreflexive(a: seq<byte>)
    ensures !LexLess(a, a)
    decreases |a|
  {
    if |a| > 0 {
      LexLessIrreflexive(a[1..]);
    }
  }

  lemma {:induction false} LexLessAsymmetric(a: seq<byte>, b: seq<byte>)
    ensures LexLess(a, b) ==> !LexLess(b, a)
    decreases |a|
  {
    if |a| > 0 && |b| > 0 && a[0] == b[0] {
      LexLessAsymmetric(a[1..], b[1..]);
    }
  }

  lemma {:induction false} LexLessTransitive(a: seq<byte>, b: seq<byte>, c: seq<byte>)
    requires LexLess(a, b) && LexLess(b, c)
    ensures LexLess(a, c)
    decreases |a|
  {
    if |a| > 0 && a[0] == b[0] && b[0] == c[0] {
      LexLessTransitive(a[1..], b[1..], c[1..]);
    }
  }

  /** Any two different byte strings are ordered one way or the other. */
  lemma {:induction false} LexLessTotal(a: seq<byte>, b: seq<byte>)
    requires a != b
    ensures LexLess(a, b) || LexLess(b, a)
    decreases |a|
  {
    if |a| > 0 && |b| > 0 && a[0] == b[0] {
      assert a == [a[0]] + a[1..] && b == [b[0]] + b[1..];
      LexLessTotal(a[1..], b[1..]);
    }
  }

  lemma {:induction false} ProperPrefixIsLess(a: seq<byte>, b: seq<byte>)
    requires a < b
    ensures LexLess(a, b)
    decreases |a|
  {
    if |a| > 0 {
      assert a[1..] < b[1..];
      ProperPrefixIsLess(a[1..], b[1..]);
    }
  }

  // ---------------------------------------------------------------- sorting

  /** "`x` may stay before `y`" in the sorted listing. */
  predicate Leq(x: seq<byte>, y: seq<byte>) {
    !LexLess(y, x)
  }

  predicate NonEmptyUpTo(e: seq<seq<byte>>, n: nat)
    requires n <= |e|
  {
    forall k :: 0 <= k < n ==> |e[k]| > 0
  }

  predicate SortedUpTo(e: seq<seq<byte>>, n: nat)
    requires n <= |e|
  {
    forall i, j :: 0 <= i < j < n ==> Leq(e[i], e[j])
  }

  /** One comparison of the inner loop: swap neighbours `j` and `j+1` when
      both names are non-empty and the left one is not less than the right. */
  function CompareSwap(e: seq<seq<byte>>, j: nat): (r: seq<seq<byte>>)
    requires j + 1 < |e|
    ensures |r| == |e|
  {
    if |e[j]| > 0 && |e[j + 1]| > 0 && !LexLess(e[j], e[j + 1]) then
      e[j := e[j + 1]][j + 1 := e[j]]
    else
      e
  }

  /** The inner loop `for j in lo..m`. */
  function Pass(e: seq<seq<byte>>, lo: nat, m: nat): (r: seq<seq<byte>>)
    requires m < |e|
    ensures |r| == |e|
    decreases m - lo
  {
    if lo >= m then e else Pass(CompareSwap(e, lo), lo + 1, m)
  }

  /** The outer loop `for i in i..count`, each pass stopping at `count-i-1`. */
  function Passes(e: seq<seq<byte>>, i: nat, count: nat): (r: seq<seq<byte>>)
    requires count <= |e|
    ensures |r| == |e|
    decreases count - i
  {
    if i >= count then e else Passes(Pass(e, 0, count - i - 1), i + 1, count)
  }

  /** `sort_entries(entries, count)`: the first `count` entries are
      permuted, and sorted when none is empty; the rest stay in place. */
  function SortEntries(e: seq<seq<byte>>, count: nat): (r: seq<seq<byte>>)
    requires count <= |e|
    ensures |r| == |e|
    ensures r[count..] == e[count..]
    ensures multiset(r[..count]) == multiset(e[..count])
    ensures NonEmptyUpTo(e, count) ==> SortedUpTo(r, count)
  {
    if count > 1 then
      var r := Passes(e, 0, count);
      PassesShape(e, 0, count);
      PrefixMultiset(e, r, count);
      if NonEmptyUpTo(e, count) then
        PassesSorted(e, 0, count);
        r
      else r
    else if count == 1 then
      LexLessIrreflexive(e[0]);
      e
    else e
  }

  lemma CompareSwapFacts(e: seq<seq<byte>>, j: nat)
    requires j + 1 < |e|
    ensures forall k :: 0 <= k < |e| && k != j && k != j + 1 ==> CompareSwap(e, j)[k] == e[k]
    ensures multiset(CompareSwap(e, j)) == multiset(e)
    ensures |e[j]| > 0 && |e[j + 1]| > 0 ==>
      && Leq(CompareSwap(e, j)[j], CompareSwap(e, j)[j + 1])
      && Leq(e[j], CompareSwap(e, j)[j + 1])
      && |CompareSwap(e, j)[j]| > 0 && |CompareSwap(e, j)[j + 1]| > 0
  {
    LexLessAsymmetric(e[j], e[j + 1]);
    LexLessIrreflexive(e[j]);
    LexLessIrreflexive(e[j + 1]);
  }

  /** A pass over `lo..m` touches only positions `lo..m` and permutes them. */
  lemma {:induction false} PassShape(e: seq<seq<byte>>, lo: nat, m: nat)
    requires m < |e|
    ensures forall k :: 0 <= k < |e| && (k < lo || k > m) ==> Pass(e, lo, m)[k] == e[k]
    ensures multiset(Pass(e, lo, m)) == multiset(e)
    decreases m - lo
  {
    if lo < m {
      CompareSwapFacts(e, lo);
      PassShape(CompareSwap(e, lo), lo + 1, m);
    }
  }

  /** When the names up to `m` are non-empty and the one at `lo` is not below
      any earlier one, the pass leaves the greatest name at `m`. */
  lemma {:induction false} PassMax(e: seq<seq<byte>>, lo: nat, m: nat)
    requires lo <= m < |e|
    requires NonEmptyUpTo(e, m + 1)
    requires forall k :: 0 <= k <= lo ==> Leq(e[k], e[lo])
    ensures NonEmptyUpTo(Pass(e, lo, m), m + 1)
    ensures forall k :: 0 <= k <= m ==> Leq(Pass(e, lo, m)[k], Pass(e, lo, m)[m])
    decreases m - lo
  {
    if lo < m {
      var e' := CompareSwap(e, lo);
      CompareSwapFacts(e, lo);
      forall k | 0 <= k <= lo + 1 ensures Leq(e'[k], e'[lo + 1]) {
        if k < lo {
          LeqTransitive(e[k], e[lo], e'[lo + 1]);
        } else if k == lo + 1 {
          LexLessIrreflexive(e'[k]);
        }
      }
      PassMax(e', lo + 1, m);
    }
  }

  lemma LeqTransitive(a: seq<byte>, b: seq<byte>, c: seq<byte>)
    requires Leq(a, b) && Leq(b, c)
    ensures Leq(a, c)
  {
    if LexLess(c, a) {
      if a != b && b != c {
        LexLessTotal(a, b);
        LexLessTotal(b, c);
        LexLessTransitive(a, b, c);
        LexLessAsymmetric(a, c);
      }
    }
  }

  /** The outer-loop invariant: after `i` passes the names in `p..count` are
      sorted and none of the names before `p` is greater than any of them. */
  predicate SortedTail(e: seq<seq<byte>>, p: nat, count: nat)
    requires p <= count <= |e|
  {
    && (forall i, j :: p <= i < j < count ==> Leq(e[i], e[j]))
    && (forall k, l :: 0 <= k < p <= l < count ==> Leq(e[k], e[l]))
  }

  /** Permuting the first `n` positions keeps the multiset of that prefix. */
  lemma PrefixMultiset(e: seq<seq<byte>>, e': seq<seq<byte>>, n: nat)
    requires |e| == |e'| && n <= |e|
    requires multiset(e') == multiset(e)
    requires forall k :: n <= k < |e| ==> e'[k] == e[k]
    ensures multiset(e'[..n]) == multiset(e[..n])
  {
    assert e == e[..n] + e[n..] && e' == e'[..n] + e'[n..];
    assert e'[n..] == e[n..];
    assert multiset(e) == multiset(e[..n]) + multiset(e[n..]);
    assert multiset(e') == multiset(e'[..n]) + multiset(e[n..]);
    forall x ensures multiset(e'[..n])[x] == multiset(e[..n])[x] {
      assert multiset(e')[x] == multiset(e'[..n])[x] + multiset(e[n..])[x];
      assert multiset(e)[x] == multiset(e[..n])[x] + multiset(e[n..])[x];
    }
  }

  /** Every name in a permuted prefix was somewhere in the original prefix. */
  lemma PermutedMembers(e: seq<seq<byte>>, e': seq<seq<byte>>, n: nat)
    requires n <= |e| && n <= |e'|
    requires multiset(e'[..n]) == multiset(e[..n])
    ensures forall k :: 0 <= k < n ==> e'[k] in e[..n]
  {
    forall k | 0 <= k < n ensures e'[k] in e[..n] {
      assert e'[k] == e'[..n][k];
      assert e'[k] in multiset(e[..n]);
    }
  }

  /** One pass extends the sorted tail by one position. */
  lemma TailStep(e: seq<seq<byte>>, e': seq<seq<byte>>, m: nat, count: nat)
    requires m < count <= |e| == |e'|
    requires SortedTail(e, m + 1, count)
    requires forall k :: m < k < count ==> e'[k] == e[k]
    requires forall k :: 0 <= k <= m ==> e'[k] in e[..m + 1]
    requires forall k :: 0 <= k <= m ==> Leq(e'[k], e'[m])
    ensures SortedTail(e', m, count)
  {
    forall k, l | 0 <= k <= m < l < count ensures Leq(e'[k], e'[l]) {
      assert e'[k] in e[..m + 1];
      var k' :| 0 <= k' < m + 1 && e[..m + 1][k'] == e'[k];
      assert e[k'] == e'[k];
    }
  }

  lemma {:induction false} PassesShape(e: seq<seq<byte>>, i: nat, count: nat)
    requires count <= |e|
    ensures forall k :: count <= k < |e| ==> Passes(e, i, count)[k] == e[k]
    ensures multiset(Passes(e, i, count)) == multiset(e)
    decreases count - i
  {
    if i < count {
      PassShape(e, 0, count - i - 1);
      PassesShape(Pass(e, 0, count - i - 1), i + 1, count);
    }
  }

  lemma {:induction false} PassesSorted(e: seq<seq<byte>>, i: nat, count: nat)
    requires i <= count <= |e|
    requires NonEmptyUpTo(e, count) && SortedTail(e, count - i, count)
    ensures SortedUpTo(Passes(e, i, count), count)
    decreases count - i
  {
    if i < count {
      var e' := Pass(e, 0, count - i - 1);
      PassStep(e, i, count);
      PassesSorted(e', i + 1, count);
      assert Passes(e, i, count) == Passes(e', i + 1, count);
    } else {
      assert Passes(e, i, count) == e;
      SortedTailAll(e, count);
    }
  }

  /** One pass keeps the names non-empty and grows the sorted tail. */
  lemma PassStep(e: seq<seq<byte>>, i: nat, count: nat)
    requires i < count <= |e|
    requires NonEmptyUpTo(e, count) && SortedTail(e, count - i, count)
    ensures NonEmptyUpTo(Pass(e, 0, count - i - 1), count)
    ensures SortedTail(Pass(e, 0, count - i - 1), count - i - 1, count)
  {
    var m := count - i - 1;
    var e' := Pass(e, 0, m);
    LexLessIrreflexive(e[0]);
    PassShape(e, 0, m);
    PassMax(e, 0, m);
    PrefixMultiset(e, e', m + 1);
    PermutedMembers(e, e', m + 1);
    TailStep(e, e', m, count);
    NonEmptyKept(e, e', m, count);
  }

  lemma NonEmptyKept(e: seq<seq<byte>>, e': seq<seq<byte>>, m: nat, count: nat)
    requires m < count <= |e| == |e'| && NonEmptyUpTo(e, count)
    requires forall k :: m < k < count ==> e'[k] == e[k]
    requires forall k :: 0 <= k <= m ==> e'[k] in e[..m + 1]
    ensures NonEmptyUpTo(e', count)
  {
    forall k | 0 <= k <= m ensures |e'[k]| > 0 {
      var k' :| 0 <= k' < m + 1 && e[..m + 1][k'] == e'[k];
      assert e[k'] == e'[k];
    }
  }

  lemma SortedTailAll(e: seq<seq<byte>>, count: nat)
    requires count <= |e| && SortedTail(e, 0, count)
    ensures SortedUpTo(e, count)
  {
  }
}
