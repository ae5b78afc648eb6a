/** The orders by which attributes are kept: values byte by byte, names by their upper case first. */
module Collation {

  type char16 = c: int | 0 <= c < 65536

  /** Lexicographic order, a prefix first: -1, 0 or 1. */
  function Compare(a: seq<int>, b: seq<int>): (r: int)
    ensures -1 <= r <= 1
  {
    if a == [] then (if b == [] then 0 else -1)
    else if b == [] then 1
    else if a[0] < b[0] then -1
    else if a[0] > b[0] then 1
    else Compare(a[1..], b[1..])
  }

  /** The second comparison decides between equals. */
  function Then(first: int, second: int): int {
    if first != 0 then first else second
  }

  /** What ordering a, b and b, c says of a, c. */
  predicate Chained(ab: int, bc: int, ac: int) {
    ab <= 0 && bc <= 0 ==> ac <= 0 && (ac == 0 <==> ab == 0 && bc == 0)
  }

  lemma ThenChained(ab: int, bc: int, ac: int, ab2: int, bc2: int, ac2: int)
    requires Chained(ab, bc, ac) && Chained(ab2, bc2, ac2)
    ensures Chained(Then(ab, ab2), Then(bc, bc2), Then(ac, ac2))
  {
  }

  /** Compare is a total order. */
  lemma {:induction false} CompareSigns(a: seq<int>, b: seq<int>)
    ensures Compare(b, a) == -Compare(a, b)
    ensures Compare(a, b) == 0 <==> a == b
  {
    if a != [] && b != [] {
      CompareSigns(a[1..], b[1..]);
      assert a == [a[0]] + a[1..] && b == [b[0]] + b[1..];
    }
  }

  lemma {:induction false} CompareChained(a: seq<int>, b: seq<int>, c: seq<int>)
    ensures Chained(Compare(a, b), Compare(b, c), Compare(a, c))
  {
    if a != [] && b != [] && c != [] {
      CompareChained(a[1..], b[1..], c[1..]);
    }
  }

  /** Sequences that agree before j and differ at j are ordered by j. */
  lemma {:induction false} CompareAt(a: seq<int>, b: seq<int>, j: nat)
    requires j <= |a| && j <= |b| && a[..j] == b[..j]
    ensures Compare(a, b) == Compare(a[j..], b[j..])
  {
    if j > 0 {
      assert a[0] == a[..j][0] == b[..j][0] == b[0];
      assert a[1..][..j - 1] == a[..j][1..] && b[1..][..j - 1] == b[..j][1..];
      CompareAt(a[1..], b[1..], j - 1);
      assert a[1..][j - 1..] == a[j..] && b[1..][j - 1..] == b[j..];
    }
  }

  /** memcmp on the common length, and then the lengths. */
  lemma CompareByParts(a: seq<int>, b: seq<int>, n: nat)
    requires n == if |a| < |b| then |a| else |b|
    ensures Compare(a, b) == Then(Compare(a[..n], b[..n]), if |a| < |b| then -1 else if |a| > |b| then 1 else 0)
  {
    if a[..n] == b[..n] {
      CompareAt(a, b, n);
      CompareSigns(a[..n], b[..n]);
    } else {
      CompareSigns(a[..n], b[..n]);
      CutAlike(a, b, n);
    }
  }

  lemma {:induction false} CutAlike(a: seq<int>, b: seq<int>, n: nat)
    requires n <= |a| && n <= |b| && a[..n] != b[..n]
    ensures Compare(a, b) == Compare(a[..n], b[..n])
  {
    assert n > 0;
    if a[0] == b[0] {
      assert a[..n] == [a[0]] + a[1..][..n - 1] && b[..n] == [b[0]] + b[1..][..n - 1];
      CutAlike(a[1..], b[1..], n - 1);
    }
  }

  function Upper(up: seq<char16>, c: char16): char16 {
    if c < |up| then up[c] else c
  }

  function UpperName(up: seq<char16>, n: seq<char16>): (u: seq<char16>)
    ensures |u| == |n|
  {
    seq(|n|, i requires 0 <= i < |n| => Upper(up, n[i]))
  }

  /** The case-sensitive order of names: by upper case, and then by the names themselves. */
  function Collate(up: seq<char16>, a: seq<char16>, b: seq<char16>): int {
    Then(Compare(UpperName(up, a), UpperName(up, b)), Compare(a, b))
  }

  lemma CollateSigns(up: seq<char16>, a: seq<char16>, b: seq<char16>)
    ensures Collate(up, b, a) == -Collate(up, a, b)
    ensures Collate(up, a, b) == 0 <==> a == b
    ensures -1 <= Collate(up, a, b) <= 1
  {
    CompareSigns(UpperName(up, a), UpperName(up, b));
    CompareSigns(a, b);
  }

  lemma CollateChained(up: seq<char16>, a: seq<char16>, b: seq<char16>, c: seq<char16>)
    ensures Chained(Collate(up, a, b), Collate(up, b, c), Collate(up, a, c))
  {
    CompareChained(UpperName(up, a), UpperName(up, b), UpperName(up, c));
    CompareChained(a, b, c);
  }

  /** The empty name comes first. */
  lemma EmptyFirst(up: seq<char16>, a: seq<char16>)
    ensures Collate(up, [], a) == if a == [] then 0 else -1
  {
  }

  lemma UpperAlike(up: seq<char16>, a: seq<char16>, b: seq<char16>, j: nat)
    requires j <= |a| && j <= |b| && a[..j] == b[..j]
    ensures UpperName(up, a)[..j] == UpperName(up, b)[..j]
  {
    assert forall i :: 0 <= i < j ==> a[i] == a[..j][i] && b[i] == b[..j][i];
  }

  /** Skip what is the same in upper case, from position i0 on. */
  method SkipSame(up: seq<char16>, a: seq<char16>, b: seq<char16>, i0: nat, cnt0: nat) returns (i: nat)
    requires i0 + cnt0 < |a| && i0 + cnt0 < |b|
    requires UpperName(up, a)[..i0] == UpperName(up, b)[..i0]
    ensures i0 <= i <= i0 + cnt0 && UpperName(up, a)[..i] == UpperName(up, b)[..i]
    ensures i < i0 + cnt0 ==> Upper(up, a[i]) != Upper(up, b[i])
  {
    ghost var ua, ub := UpperName(up, a), UpperName(up, b);
    i := i0;
    var cnt := cnt0;
    while Upper(up, a[i]) == Upper(up, b[i]) && cnt > 0
      invariant i + cnt == i0 + cnt0 && cnt >= 0 && i0 <= i
      invariant ua[..i] == ub[..i]
      decreases cnt
    {
      assert ua[..i + 1] == ua[..i] + [ua[i]] && ub[..i + 1] == ub[..i] + [ub[i]];
      i := i + 1;
      cnt := cnt - 1;
    }
  }

  /** The comparison of two names in one pass: j is where they differ first, i where their upper cases do. */
  method FullCollate(up: seq<char16>, a: seq<char16>, b: seq<char16>, ignoreCase: bool) returns (r: int)
    ensures r == if ignoreCase then Compare(UpperName(up, a), UpperName(up, b)) else Collate(up, a, b)
  {
    var n := if |a| < |b| then |a| else |b|;
    ghost var ua, ub := UpperName(up, a), UpperName(up, b);
    if n > 0 {
      var i := 0;
      var cnt := n - 1;
      while !ignoreCase && cnt > 0 && a[i] == b[i]
        invariant i + cnt == n - 1 && cnt >= 0 && i >= 0
        invariant a[..i] == b[..i]
        decreases cnt
      {
        assert a[..i + 1] == a[..i] + [a[i]] && b[..i + 1] == b[..i] + [b[i]];
        i := i + 1;
        cnt := cnt - 1;
      }
      var c1, c2 := a[i], b[i];
      CompareAt(a, b, i);
      UpperAlike(up, a, b, i);
      ghost var j := i;
      i := SkipSame(up, a, b, i, cnt);
      CompareAt(ua, ub, i);
      var u1, u2 := Upper(up, a[i]), Upper(up, b[i]);
      if u1 < u2 {
        return -1;
      }
      if u1 > u2 {
        return 1;
      }
      assert ua[i..][1..] == ua[n..] && ub[i..][1..] == ub[n..];
      if |a| < |b| {
        return -1;
      }
      if |a| > |b| {
        return 1;
      }
      if ignoreCase {
        return 0;
      }
      if c1 < c2 {
        return -1;
      }
      if c1 > c2 {
        return 1;
      }
      assert j < n - 1 ==> c1 != c2;
      assert a[j..][1..] == b[j..][1..];
      return 0;
    }
    r := if |a| < |b| then -1 else if |a| > |b| then 1 else 0;
  }
}
