/** The byte slices of mutiplex/Slice.h, as the bytes they refer to. */
module Slices {
  import opened Bits

  type Slice = seq<byte>

  /** memcmp of the first `n` bytes, taken as unsigned; only the sign of the result is specified. */
  function Memcmp(a: Slice, b: Slice, n: nat): int
    requires n <= |a| && n <= |b|
    decreases n
  {
    if n == 0 then 0
    else if a[0] < b[0] then -1
    else if a[0] > b[0] then 1
    else Memcmp(a[1..], b[1..], n - 1)
  }

  function Compare(a: Slice, b: Slice): int {
    var r := Memcmp(a, b, Min(|a|, |b|));
    if r != 0 then r
    else if |a| < |b| then -1
    else if |a| > |b| then 1
    else 0
  }

  predicate Equal(a: Slice, b: Slice) {
    |a| == |b| && Memcmp(a, b, |a|) == 0
  }

  predicate StartsWith(a: Slice, x: Slice) {
    |a| >= |x| && Memcmp(a, x, |x|) == 0
  }

  /** At the first place where they differ, `a` has the smaller byte or has ended. */
  ghost predicate LexLess(a: Slice, b: Slice) {
    exists k: nat :: DifferAt(a, b, k)
  }

  predicate DifferAt(a: Slice, b: Slice, k: nat) {
    && k <= |a| && k < |b| && a[..k] == b[..k]
    && (k == |a| || a[k] < b[k])
  }

  lemma {:induction false} MemcmpZero(a: Slice, b: Slice, n: nat)
    requires n <= |a| && n <= |b|
    ensures Memcmp(a, b, n) == 0 <==> a[..n] == b[..n]
    decreases n
  {
    if n != 0 {
      MemcmpZero(a[1..], b[1..], n - 1);
      assert a[..n] == [a[0]] + a[1..][..n - 1];
      assert b[..n] == [b[0]] + b[1..][..n - 1];
    }
  }

  lemma CompareTail(a: Slice, b: Slice)
    requires a != [] && b != [] && a[0] == b[0]
    ensures Compare(a, b) == Compare(a[1..], b[1..])
  {
  }

  /** `compare` is 0 exactly on equal bytes, as `operator==` is true. */
  lemma CompareAgreesWithEqual(a: Slice, b: Slice)
    ensures Compare(a, b) == 0 <==> a == b
    ensures Equal(a, b) <==> a == b
  {
    MemcmpZero(a, b, Min(|a|, |b|));
    assert a[..|a|] == a && b[..|b|] == b;
    if |a| == |b| {
      MemcmpZero(a, b, |a|);
    }
  }

  lemma StartsWithIsPrefix(a: Slice, x: Slice)
    ensures StartsWith(a, x) <==> x <= a
  {
    if |a| >= |x| {
      MemcmpZero(a, x, |x|);
      assert x[..|x|] == x;
    }
  }

  /** `compare` is negative exactly when the first slice precedes the second lexicographically. */
  lemma {:induction false} CompareIsLexicographic(a: Slice, b: Slice)
    ensures Compare(a, b) < 0 <==> LexLess(a, b)
    decreases |a|
  {
    if a == [] || b == [] || a[0] != b[0] {
      if Compare(a, b) < 0 {
        assert DifferAt(a, b, 0);
      } else {
        forall k: nat ensures !DifferAt(a, b, k) {
          if 0 < k <= |a| && k <= |b| {
            assert a[..k][0] == a[0] && b[..k][0] == b[0];
          }
        }
      }
    } else {
      CompareTail(a, b);
      CompareIsLexicographic(a[1..], b[1..]);
      if LexLess(a[1..], b[1..]) {
        var k: nat :| DifferAt(a[1..], b[1..], k);
        assert a[..k + 1] == [a[0]] + a[1..][..k] && b[..k + 1] == [b[0]] + b[1..][..k];
        assert DifferAt(a, b, k + 1);
      }
      if LexLess(a, b) {
        var k: nat :| DifferAt(a, b, k);
        if k > 0 {
          assert a[1..][..k - 1] == a[..k][1..] && b[1..][..k - 1] == b[..k][1..];
          assert DifferAt(a[1..], b[1..], k - 1);
        }
      }
    }
  }

  /** Swapping the arguments flips the sign. */
  lemma {:induction false} CompareFlips(a: Slice, b: Slice)
    ensures Compare(a, b) < 0 <==> Compare(b, a) > 0
    decreases |a|
  {
    if a != [] && b != [] && a[0] == b[0] {
      CompareTail(a, b);
      CompareTail(b, a);
      CompareFlips(a[1..], b[1..]);
    }
  }

  lemma {:induction false} CompareTransitive(a: Slice, b: Slice, c: Slice)
    requires Compare(a, b) <= 0 && Compare(b, c) <= 0
    ensures Compare(a, c) <= 0
    decreases |a|
  {
    if a != [] && b != [] && c != [] && a[0] == b[0] == c[0] {
      CompareTail(a, b);
      CompareTail(b, c);
      CompareTail(a, c);
      CompareTransitive(a[1..], b[1..], c[1..]);
    }
  }

  /** The slices with a given prefix form an interval of the order, with the prefix as its least element. */
  lemma {:induction false} PrefixInterval(x: Slice, a: Slice, b: Slice, c: Slice)
    requires StartsWith(a, x) && StartsWith(c, x) && Compare(a, b) <= 0 && Compare(b, c) <= 0
    ensures StartsWith(b, x) && Compare(x, a) <= 0
    decreases |x|
  {
    StartsWithIsPrefix(a, x);
    StartsWithIsPrefix(c, x);
    StartsWithIsPrefix(b, x);
    if x != [] {
      assert x[0] == a[0] == c[0];
      assert b != [] && b[0] == x[0];
      CompareTail(a, b);
      CompareTail(b, c);
      CompareTail(x, a);
      StartsWithIsPrefix(a[1..], x[1..]);
      StartsWithIsPrefix(c[1..], x[1..]);
      PrefixInterval(x[1..], a[1..], b[1..], c[1..]);
      StartsWithIsPrefix(b[1..], x[1..]);
      assert x == [x[0]] + x[1..] && b == [b[0]] + b[1..];
    }
  }
}
