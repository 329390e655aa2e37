/** `getHammingDistance`: the number of positions at which two strings differ. */
module Hamming {

  /** The positions at which two equal-length strings differ. */
  ghost function MismatchIndices(a: string, b: string): set<int>
    requires |a| == |b|
  {
    set i | 0 <= i < |a| && a[i] != b[i]
  }

  /** The mismatch count, accumulated from the front as the source's loop does. */
  function Mismatches(a: string, b: string): (n: nat)
    requires |a| == |b|
    ensures n <= |a|
    decreases |a|
  {
    if |a| == 0 then 0
    else Mismatches(a[..|a| - 1], b[..|a| - 1]) + (if a[|a| - 1] != b[|a| - 1] then 1 else 0)
  }

  /** Mismatches counts exactly the positions where the strings differ. */
  lemma {:induction false} MismatchesCountsIndices(a: string, b: string)
    requires |a| == |b|
    ensures Mismatches(a, b) == |MismatchIndices(a, b)|
    decreases |a|
  {
    if |a| > 0 {
      var n := |a| - 1;
      var a', b' := a[..n], b[..n];
      MismatchesCountsIndices(a', b');
      var before := MismatchIndices(a', b');
      assert n !in before;
      if a[n] != b[n] {
        assert MismatchIndices(a, b) == before + {n};
      } else {
        assert MismatchIndices(a, b) == before;
      }
    }
  }

  /** The distance the game reports: 0 for strings of different lengths
      (a guard, not a metric), the mismatch count otherwise. */
  function HammingDistance(a: string, b: string): (d: nat)
    ensures |a| != |b| ==> d == 0
    ensures |a| == |b| ==> d == |MismatchIndices(a, b)| && d <= |a|
  {
    if |a| != |b| then 0
    else
      MismatchesCountsIndices(a, b);
      Mismatches(a, b)
  }

  /** For strings of one length, the distance is 0 exactly when they are equal. */
  lemma ZeroIffEqual(a: string, b: string)
    requires |a| == |b|
    ensures HammingDistance(a, b) == 0 <==> a == b
  {
    if a != b {
      var i :| 0 <= i < |a| && a[i] != b[i];
      assert i in MismatchIndices(a, b);
    } else {
      assert MismatchIndices(a, b) == {};
    }
  }

  /** The distance does not depend on the order of its arguments. */
  lemma Symmetric(a: string, b: string)
    ensures HammingDistance(a, b) == HammingDistance(b, a)
  {
    if |a| == |b| {
      assert MismatchIndices(a, b) == MismatchIndices(b, a);
    }
  }

  /** On strings of one length the distance obeys the triangle inequality. */
  lemma {:induction false} Triangle(a: string, b: string, c: string)
    requires |a| == |b| == |c|
    ensures HammingDistance(a, c) <= HammingDistance(a, b) + HammingDistance(b, c)
  {
    MismatchesTriangle(a, b, c);
  }

  lemma {:induction false} MismatchesTriangle(a: string, b: string, c: string)
    requires |a| == |b| == |c|
    ensures Mismatches(a, c) <= Mismatches(a, b) + Mismatches(b, c)
    decreases |a|
  {
    if |a| > 0 {
      var n := |a| - 1;
      MismatchesTriangle(a[..n], b[..n], c[..n]);
    }
  }

  /** The source's loop: counts the differing positions of two strings of
      the same length and returns 0 when the lengths differ. */
  method GetHammingDistance(str1: string, str2: string) returns (dist: nat)
    ensures dist == HammingDistance(str1, str2)
  {
    if |str1| != |str2| {
      return 0;
    }
    dist := 0;
    for i := 0 to |str1|
      invariant dist == Mismatches(str1[..i], str2[..i])
    {
      assert str1[..i + 1][..i] == str1[..i] && str2[..i + 1][..i] == str2[..i];
      if str1[i] != str2[i] {
        dist := dist + 1;
      }
    }
    assert str1[..|str1|] == str1 && str2[..|str2|] == str2;
  }
}
