/** Multi-sector transfer protection: the last word of every sector of a record is replaced by an update
  * sequence number, and kept in an array in the record. Records are sequences of 16-bit words. */
module MultiSector {

  type word = w: int | 0 <= w < 65536

  const SECTOR: int := 256            // words of a sector of 512 bytes
  const BAAD_LOW: word := 0x4142
  const BAAD_HIGH: word := 0x4441
  const HOLE_LOW: word := 0x4f48
  const HOLE_HIGH: word := 0x454c

  /** Basic validation; sizes and offsets are in bytes. */
  predicate IsValidRecord(size: nat, usaOfs: nat, usaCount: nat) {
    size % 512 == 0 && usaOfs % 2 == 0 && usaCount == 1 + size / 512 && usaOfs + usaCount * 2 <= 510
  }

  predicate HasMagic(r: seq<word>, low: word, high: word)
    requires |r| >= 4
  {
    r[0] == low && r[1] == high
  }

  /** The next update sequence number, 0 and 0xffff left out. */
  function NextUsn(usn: word): (next: word)
    ensures next != usn && next != 0 && next != 0xffff
  {
    var n := (usn + 1) % 65536;
    if n == 0xffff || n == 0 then 1 else n
  }

  /** A record of n sectors whose update sequence array starts at word k, behind the header. */
  ghost predicate Record(r: seq<word>, k: nat, n: nat) {
    |r| == 256 * n && n >= 1 && 4 <= k && k + n + 1 <= 255 && r[2] == 2 * k && r[3] == n + 1
  }

  /** The record after the first i sectors have been protected. */
  function ProtectedTo(r: seq<word>, k: nat, n: nat, i: nat): (p: seq<word>)
    requires |r| == 256 * n && k + n + 1 <= 255 && i <= n && n >= 1
    ensures |p| == |r|
  {
    seq(|r|, j requires 0 <= j < |r| =>
      if j == k then NextUsn(r[k])
      else if k < j <= k + i then r[256 * (j - k - 1) + 255]
      else if j % 256 == 255 && j / 256 < i then NextUsn(r[k])
      else r[j])
  }

  function Protected(r: seq<word>, k: nat, n: nat): (p: seq<word>)
    requires |r| == 256 * n && k + n + 1 <= 255 && n >= 1
    ensures |p| == |r|
  {
    ProtectedTo(r, k, n, n)
  }

  /** The record after the first i sectors have got their last word back. */
  function RestoredTo(p: seq<word>, k: nat, n: nat, i: nat): (r: seq<word>)
    requires |p| == 256 * n && k + n + 1 <= 255 && i <= n && n >= 1
    ensures |r| == |p|
  {
    seq(|p|, j requires 0 <= j < |p| => if j % 256 == 255 && j / 256 < i then p[k + 1 + j / 256] else p[j])
  }

  function Restored(p: seq<word>, k: nat, n: nat): (r: seq<word>)
    requires |p| == 256 * n && k + n + 1 <= 255 && n >= 1
    ensures |r| == |p|
  {
    RestoredTo(p, k, n, n)
  }

  /** All sectors end with the update sequence number. */
  ghost predicate Intact(p: seq<word>, k: nat, n: nat) {
    |p| == 256 * n && k + n + 1 <= 255 && n >= 1 && forall i :: 0 <= i < n ==> p[256 * i + 255] == p[k]
  }

  // What protection is for

  /** The record with its update sequence array filled in: the new number and the sectors' last words. Nothing
    * else of it is changed by protecting and restoring. */
  function Refreshed(r: seq<word>, k: nat, n: nat): (f: seq<word>)
    requires |r| == 256 * n && k + n + 1 <= 255 && n >= 1
    ensures |f| == |r|
  {
    seq(|r|, j requires 0 <= j < |r| =>
      if j == k then NextUsn(r[k]) else if k < j <= k + n then r[256 * (j - k - 1) + 255] else r[j])
  }

  lemma ProtectedShape(r: seq<word>, k: nat, n: nat)
    requires Record(r, k, n)
    ensures Record(Protected(r, k, n), k, n) && Intact(Protected(r, k, n), k, n)
    ensures Protected(r, k, n)[0] == r[0] && Protected(r, k, n)[1] == r[1] && Protected(r, k, n)[k] == NextUsn(r[k])
  {
    var p := Protected(r, k, n);
    forall i | 0 <= i < n
      ensures p[256 * i + 255] == NextUsn(r[k])
    {
      assert (256 * i + 255) % 256 == 255 && (256 * i + 255) / 256 == i;
    }
  }

  lemma RoundTripAt(r: seq<word>, k: nat, n: nat, j: nat)
    requires Record(r, k, n) && j < |r|
    ensures Restored(Protected(r, k, n), k, n)[j] == Refreshed(r, k, n)[j]
  {
    if j % 256 == 255 {
      assert j == 256 * (j / 256) + 255 && j / 256 < n;
    }
  }

  /** Protecting and restoring gives the record back, with a new number and the last words in the array. */
  lemma RoundTrip(r: seq<word>, k: nat, n: nat)
    requires Record(r, k, n)
    ensures Restored(Protected(r, k, n), k, n) == Refreshed(r, k, n)
  {
    var p := Restored(Protected(r, k, n), k, n);
    forall j | 0 <= j < |r|
      ensures p[j] == Refreshed(r, k, n)[j]
    {
      RoundTripAt(r, k, n, j);
    }
  }

  /** Does the array already hold the sectors' last words? */
  ghost predicate ArrayCurrent(r: seq<word>, k: nat, n: nat)
    requires |r| == 256 * n && k + n + 1 <= 255
  {
    forall i :: 0 <= i < n ==> r[k + 1 + i] == r[256 * i + 255]
  }

  ghost predicate AllBut(f: seq<word>, r: seq<word>, k: nat) {
    |f| == |r| && forall j :: 0 <= j < |r| && j != k ==> f[j] == r[j]
  }

  lemma CurrentKept(r: seq<word>, k: nat, n: nat)
    requires Record(r, k, n) && ArrayCurrent(r, k, n)
    ensures AllBut(Refreshed(r, k, n), r, k)
  {
    forall j | 0 <= j < |r| && j != k
      ensures Refreshed(r, k, n)[j] == r[j]
    {
      assert k < j <= k + n ==> r[k + 1 + (j - k - 1)] == r[256 * (j - k - 1) + 255];
    }
  }

  lemma KeptCurrent(r: seq<word>, k: nat, n: nat)
    requires Record(r, k, n) && AllBut(Refreshed(r, k, n), r, k)
    ensures ArrayCurrent(r, k, n)
  {
    forall i | 0 <= i < n
      ensures r[k + 1 + i] == r[256 * i + 255]
    {
      assert Refreshed(r, k, n)[k + 1 + i] == r[k + 1 + i];
    }
  }

  /** Everything but the update sequence number is as before exactly when the array was current. */
  lemma AllButTheNumber(r: seq<word>, k: nat, n: nat)
    requires Record(r, k, n)
    ensures ArrayCurrent(r, k, n) <==> AllBut(Restored(Protected(r, k, n), k, n), r, k)
  {
    RoundTrip(r, k, n);
    hide ArrayCurrent, AllBut, Refreshed, Restored, Protected;
    if ArrayCurrent(r, k, n) {
      CurrentKept(r, k, n);
    }
    if AllBut(Refreshed(r, k, n), r, k) {
      KeptCurrent(r, k, n);
    }
  }

  /** A stale array is overwritten: not all bytes besides the number come back. */
  lemma StaleArray()
    returns (r: seq<word>)
    ensures Record(r, 4, 1) && !ArrayCurrent(r, 4, 1) && Restored(Protected(r, 4, 1), 4, 1)[5] != r[5]
  {
    r := seq(256, j => if j == 2 then 8 else if j == 3 then 2 else if j == 255 then 7 else 0);
    assert r[4 + 1 + 0] != r[256 * 0 + 255];
    assert !ArrayCurrent(r, 4, 1);
    RoundTrip(r, 4, 1);
  }

  /** A record of which some sectors, but not all, were replaced by those of its next version. */
  ghost predicate Torn(t: seq<word>, p: seq<word>, q: seq<word>, n: nat) {
    && |t| == |p| == |q| == 256 * n
    && (exists i :: 0 <= i < n && SameSector(t, p, i)) && (exists i :: 0 <= i < n && SameSector(t, q, i))
    && (forall i :: 0 <= i < n ==> SameSector(t, p, i) || SameSector(t, q, i))
  }

  ghost predicate Same(t: seq<word>, p: seq<word>, i: int, j: int) {
    0 <= 256 * i + j < |t| && |t| == |p| && t[256 * i + j] == p[256 * i + j]
  }

  ghost predicate SameSector(t: seq<word>, p: seq<word>, i: int) {
    forall j :: 0 <= j < 256 ==> Same(t, p, i, j)
  }

  /** A torn write is always detected, whatever the two versions hold. */
  lemma TornDetected(r: seq<word>, q: seq<word>, t: seq<word>, k: nat, n: nat)
    requires Record(r, k, n) && Record(q, k, n) && q[k] == Protected(r, k, n)[k]
    requires Torn(t, Protected(r, k, n), Protected(q, k, n), n)
    ensures Record(t, k, n) && !Intact(t, k, n)
  {
    var p, p' := Protected(r, k, n), Protected(q, k, n);
    ProtectedShape(r, k, n);
    ProtectedShape(q, k, n);
    var a :| 0 <= a < n && SameSector(t, p, a);
    var b :| 0 <= b < n && SameSector(t, p', b);
    assert Same(t, p, a, 255) && Same(t, p', b, 255);
    assert t[256 * a + 255] == p[k] && t[256 * b + 255] == p'[k] && p[k] != p'[k];
    assert SameSector(t, p, 0) || SameSector(t, p', 0);
    assert Same(t, p, 0, 2) || Same(t, p', 0, 2);
    assert Same(t, p, 0, 3) || Same(t, p', 0, 3);
  }

  // The functions that do it in place, for the record that starts at index `at` of a buffer

  ghost function At(b: seq<word>, at: nat, n: nat): (r: seq<word>)
    requires at + 256 * n <= |b|
    ensures |r| == 256 * n
  {
    b[at..at + 256 * n]
  }

  /** The rest of the buffer is not touched. */
  ghost predicate OnlyAt(now: seq<word>, was: seq<word>, at: nat, n: nat, r: seq<word>)
    requires at + 256 * n <= |was|
  {
    |r| == 256 * n && now == was[..at] + r + was[at + 256 * n..]
  }

  /** What ntfs_mst_pre_write_fixup accepts. */
  predicate Protectable(r: seq<word>, size: nat)
    requires |r| >= 4
  {
    !HasMagic(r, BAAD_LOW, BAAD_HIGH) && !HasMagic(r, HOLE_LOW, HOLE_HIGH) && IsValidRecord(size, r[2], r[3])
  }

  /** The update sequence array, if there is a valid one, is behind the header. */
  predicate Behind(r: seq<word>, size: nat)
    requires |r| >= 4
  {
    IsValidRecord(size, r[2], r[3]) ==> r[2] >= 8
  }

  lemma ValidIs(r: seq<word>, n: nat)
    requires n >= 1 && |r| == 256 * n && Behind(r, 512 * n) && IsValidRecord(512 * n, r[2], r[3])
    ensures Record(r, r[2] / 2, n)
  {
  }

  /** Element by element: the record is s, the rest as before. */
  ghost predicate Holds(now: seq<word>, was: seq<word>, at: nat, n: nat, s: seq<word>) {
    && |now| == |was| && at + 256 * n <= |was| && |s| == 256 * n
    && (forall j :: 0 <= j < at ==> now[j] == was[j])
    && (forall j :: at <= j < at + 256 * n ==> now[j] == s[j - at])
    && (forall j :: at + 256 * n <= j < |was| ==> now[j] == was[j])
  }

  lemma HoldsMeans(now: seq<word>, was: seq<word>, at: nat, n: nat, s: seq<word>)
    requires Holds(now, was, at, n, s)
    ensures OnlyAt(now, was, at, n, s)
  {
  }

  lemma HoldsAtFirst(was: seq<word>, at: nat, n: nat)
    requires at + 256 * n <= |was|
    ensures Holds(was, was, at, n, At(was, at, n))
  {
  }

  /** One sector more is protected. */
  lemma ProtectOne(now: seq<word>, next: seq<word>, was: seq<word>, at: nat, n: nat, r: seq<word>, k: nat, i: nat)
    requires Record(r, k, n) && i < n && Holds(now, was, at, n, ProtectedTo(r, k, n, i))
    requires next == now[at + k + 1 + i := now[at + 256 * i + 255]][at + 256 * i + 255 := NextUsn(r[k])]
    ensures Holds(next, was, at, n, ProtectedTo(r, k, n, i + 1))
  {
    forall j | at <= j < at + 256 * n
      ensures next[j] == ProtectedTo(r, k, n, i + 1)[j - at]
    {
      var d := j - at;
      assert d % 256 == 255 && d / 256 == i <==> d == 256 * i + 255;
    }
  }

  /** Save the last word of each sector and put the number in its place; usaPos is the number's position. */
  method ProtectSectors(b: array<word>, at: nat, usaPos0: nat, usaCount0: nat, usn: word, ghost was: seq<word>,
                        ghost r: seq<word>, ghost k: nat, ghost n: nat)
    requires Record(r, k, n) && usaPos0 == at + k && usaCount0 == n && usn == NextUsn(r[k]) && at + 256 * n <= b.Length
    requires Holds(b[..], was, at, n, ProtectedTo(r, k, n, 0))
    modifies b
    ensures Holds(b[..], was, at, n, Protected(r, k, n))
  {
    hide Holds, ProtectedTo, NextUsn;
    var usaPos, dataPos, usaCount := usaPos0, at + 255, usaCount0;
    ghost var i := 0;
    while usaCount != 0
      invariant 0 <= i <= n && usaCount == n - i && usaPos == at + k + i && dataPos == at + 256 * i + 255
      invariant Holds(b[..], was, at, n, ProtectedTo(r, k, n, i))
      decreases usaCount
    {
      ghost var now := b[..];
      usaPos := usaPos + 1;
      b[usaPos] := b[dataPos];
      b[dataPos] := usn;
      ProtectOne(now, b[..], was, at, n, r, k, i);
      dataPos := dataPos + 256;
      i := i + 1;
      usaCount := usaCount - 1;
    }
  }

  /** Protect a record, or refuse to. */
  method PreWriteFixup(b: array<word>, at: nat, size: nat, ghost n: nat) returns (ret: int)
    requires n >= 1 && size == 512 * n && at + 256 * n <= b.Length && Behind(At(b[..], at, n), size)
    modifies b
    ensures !Protectable(At(old(b[..]), at, n), size) ==> ret == -1 && b[..] == old(b[..])
    ensures Protectable(At(old(b[..]), at, n), size) ==>
              var r := At(old(b[..]), at, n);
              ret == 0 && Record(r, r[2] / 2, n) && OnlyAt(b[..], old(b[..]), at, n, Protected(r, r[2] / 2, n))
  {
    ghost var was, r := b[..], At(b[..], at, n);
    assert r[0] == b[at] && r[1] == b[at + 1] && r[2] == b[at + 2] && r[3] == b[at + 3];
    if (b[at] == BAAD_LOW && b[at + 1] == BAAD_HIGH) || (b[at] == HOLE_LOW && b[at + 1] == HOLE_HIGH) {
      return -1;
    }
    var usaOfs, usaCount := b[at + 2], b[at + 3];
    if !IsValidRecord(size, usaOfs, usaCount) {
      return -1;
    }
    ValidIs(r, n);
    ghost var k := r[2] / 2;
    HoldsAtFirst(was, at, n);
    var usaPos := at + usaOfs / 2;
    assert b[usaPos] == r[k];
    b[usaPos] := NextUsn(b[usaPos]);
    NumberHolds(b[..], was, at, n, r, k);
    hide Holds, ProtectedTo, NextUsn, OnlyAt;
    ProtectSectors(b, at, usaPos, usaCount - 1, b[usaPos], was, r, k, n);
    HoldsMeans(b[..], was, at, n, Protected(r, k, n));
    ret := 0;
  }

  lemma NumberHolds(now: seq<word>, was: seq<word>, at: nat, n: nat, r: seq<word>, k: nat)
    requires Record(r, k, n) && Holds(was, was, at, n, r) && now == was[at + k := NextUsn(r[k])]
    ensures Holds(now, was, at, n, ProtectedTo(r, k, n, 0))
  {
  }

  lemma RestoreOne(now: seq<word>, next: seq<word>, was: seq<word>, at: nat, n: nat, p: seq<word>, k: nat, i: nat)
    requires |p| == 256 * n && n >= 1 && k + n + 1 <= 255 && i < n && Holds(now, was, at, n, RestoredTo(p, k, n, i))
    requires next == now[at + 256 * i + 255 := now[at + k + 1 + i]]
    ensures Holds(next, was, at, n, RestoredTo(p, k, n, i + 1))
  {
    forall j | at <= j < at + 256 * n
      ensures next[j] == RestoredTo(p, k, n, i + 1)[j - at]
    {
      var d := j - at;
      assert d % 256 == 255 && d / 256 == i <==> d == 256 * i + 255;
    }
  }

  /** Put the saved words back. */
  method RestoreSectors(b: array<word>, at: nat, usaPos0: nat, usaCount0: nat, ghost p: seq<word>, ghost k: nat,
                        ghost n: nat)
    requires n >= 1 && at + 256 * n <= b.Length && p == At(b[..], at, n)
    requires k + n + 1 <= 255 && usaPos0 == at + k && usaCount0 == n
    modifies b
    ensures OnlyAt(b[..], old(b[..]), at, n, Restored(p, k, n))
  {
    ghost var was := b[..];
    HoldsAtFirst(was, at, n);
    assert RestoredTo(p, k, n, 0) == p;
    hide Holds, RestoredTo, OnlyAt, At;
    var usaPos, dataPos, usaCount := usaPos0, at + 255, usaCount0;
    ghost var i := 0;
    while usaCount != 0
      invariant 0 <= i <= n && usaCount == n - i && usaPos == at + k + i && dataPos == at + 256 * i + 255
      invariant Holds(b[..], was, at, n, RestoredTo(p, k, n, i))
      decreases usaCount
    {
      ghost var now := b[..];
      usaPos := usaPos + 1;
      b[dataPos] := b[usaPos];
      RestoreOne(now, b[..], was, at, n, p, k, i);
      dataPos := dataPos + 256;
      i := i + 1;
      usaCount := usaCount - 1;
    }
    HoldsMeans(b[..], was, at, n, RestoredTo(p, k, n, n));
  }

  /** Restore a record that was just protected, without any check. */
  method PostWriteFixup(b: array<word>, at: nat, ghost k: nat, ghost n: nat)
    requires at + 256 * n <= b.Length && Record(At(b[..], at, n), k, n)
    modifies b
    ensures OnlyAt(b[..], old(b[..]), at, n, Restored(At(old(b[..]), at, n), k, n))
  {
    ghost var p := At(b[..], at, n);
    assert p[2] == b[at + 2] && p[3] == b[at + 3];
    var usaOfs, usaCount := b[at + 2], b[at + 3];
    RestoreSectors(b, at, at + usaOfs / 2, usaCount - 1, p, k, n);
  }

  /** Do all sectors end with the number? */
  method CheckSectors(b: array<word>, at: nat, usaCount0: nat, usn: word, ghost k: nat, ghost n: nat) returns (ok: bool)
    requires n >= 1 && at + 256 * n <= b.Length && usaCount0 == n && k + n + 1 <= 255 && usn == At(b[..], at, n)[k]
    ensures ok <==> Intact(At(b[..], at, n), k, n)
  {
    var dataPos, usaCount := at + 255, usaCount0;
    ghost var i, p := 0, At(b[..], at, n);
    while usaCount != 0
      invariant 0 <= i <= n && usaCount == n - i && dataPos == at + 256 * i + 255
      invariant forall j :: 0 <= j < i ==> p[256 * j + 255] == usn
      decreases usaCount
    {
      assert p[256 * i + 255] == b[dataPos];
      if b[dataPos] != usn {
        return false;
      }
      dataPos := dataPos + 256;
      i := i + 1;
      usaCount := usaCount - 1;
    }
    ok := true;
  }

  /** Restore a record that was read, or mark it as bad when some sector does not belong to the others. */
  method PostReadFixup(b: array<word>, at: nat, size: nat, ghost n: nat) returns (ret: int)
    requires n >= 1 && size == 512 * n && at + 256 * n <= b.Length && Behind(At(b[..], at, n), size)
    modifies b
    ensures var p := At(old(b[..]), at, n); !IsValidRecord(size, p[2], p[3]) ==> ret == -1 && b[..] == old(b[..])
    ensures var p := At(old(b[..]), at, n); IsValidRecord(size, p[2], p[3]) ==>
              && Record(p, p[2] / 2, n)
              && (Intact(p, p[2] / 2, n) ==> ret == 0 && OnlyAt(b[..], old(b[..]), at, n, Restored(p, p[2] / 2, n)))
              && (!Intact(p, p[2] / 2, n) ==> ret == -1 && b[..] == old(b[..])[at := BAAD_LOW][at + 1 := BAAD_HIGH])
  {
    ghost var p := At(b[..], at, n);
    assert p[2] == b[at + 2] && p[3] == b[at + 3];
    var usaOfs, usaCount := b[at + 2], b[at + 3];
    if !IsValidRecord(size, usaOfs, usaCount) {
      return -1;
    }
    ValidIs(p, n);
    ghost var k := p[2] / 2;
    var usaPos := at + usaOfs / 2;
    assert b[usaPos] == p[k];
    hide OnlyAt, Intact, Restored;
    var ok := CheckSectors(b, at, usaCount - 1, b[usaPos], k, n);
    if !ok {
      b[at], b[at + 1] := BAAD_LOW, BAAD_HIGH;
      return -1;
    }
    RestoreSectors(b, at, usaPos, usaCount - 1, p, k, n);
    ret := 0;
  }

  // Writing several records at once

  /** Where block j starts. */
  function Start(j: nat, n: nat): (at: nat) {
    j * (256 * n)
  }

  lemma StartNext(j: nat, m: nat, n: nat)
    requires j < m
    ensures Start(j + 1, n) == Start(j, n) + 256 * n <= Start(m, n)
  {
    StartOrder(j + 1, m, n);
    assert (j + 1) * (256 * n) == j * (256 * n) + 256 * n;
  }

  lemma StartOrder(j: nat, m: nat, n: nat)
    requires j <= m
    ensures Start(j, n) <= Start(m, n)
  {
    assert m * (256 * n) == j * (256 * n) + (m - j) * (256 * n);
  }

  /** Block j of a buffer of m blocks. */
  ghost function Block(b: seq<word>, j: nat, m: nat, n: nat): (r: seq<word>)
    requires j < m && |b| == Start(m, n)
    ensures |r| == 256 * n
  {
    StartNext(j, m, n);
    At(b, Start(j, n), n)
  }

  lemma OnlyBlock(now: seq<word>, was: seq<word>, i: nat, j: nat, m: nat, n: nat, r: seq<word>)
    requires i < m && j < m && |was| == Start(m, n) && Start(i, n) + 256 * n <= |was|
             && OnlyAt(now, was, Start(i, n), n, r)
    ensures |now| == |was| && Block(now, j, m, n) == if j == i then r else Block(was, j, m, n)
  {
    StartNext(i, m, n);
    StartNext(j, m, n);
    if j < i {
      StartOrder(j + 1, i, n);
    } else if j > i {
      StartOrder(i + 1, j, n);
    }
    hide Start;
    forall d | 0 <= d < 256 * n
      ensures Block(now, j, m, n)[d] == (if j == i then r else Block(was, j, m, n))[d]
    {
      assert Block(now, j, m, n)[d] == now[Start(j, n) + d];
    }
  }

  function Offset(r: seq<word>): nat
    requires |r| >= 4
  {
    r[2] / 2
  }

  datatype Stage = Untouched | Guarded | Done

  ghost predicate BlockIs(now: seq<word>, was: seq<word>, stage: Stage, n: nat)
    requires n >= 1 && |was| == 256 * n
  {
    match stage
    case Untouched => now == was
    case Guarded => Record(was, Offset(was), n) && Protectable(was, 512 * n) && now == Protected(was, Offset(was), n)
    case Done => Record(was, Offset(was), n) && Protectable(was, 512 * n) && now == Refreshed(was, Offset(was), n)
  }

  function StageOf(j: int, lo: int, c: int): Stage {
    if j < lo then Done else if j < c then Guarded else Untouched
  }

  /** Of m blocks, those below lo are done, those from lo to c - 1 are protected, the others as they were. */
  ghost predicate BlocksAre(now: seq<word>, was: seq<word>, lo: nat, c: nat, m: nat, n: nat) {
    && n >= 1 && |now| == |was| == Start(m, n) && lo <= c <= m
    && forall j :: 0 <= j < m ==> BlockIs(Block(now, j, m, n), Block(was, j, m, n), StageOf(j, lo, c), n)
  }

  lemma AllUntouched(was: seq<word>, m: nat, n: nat)
    requires n >= 1 && |was| == Start(m, n)
    ensures BlocksAre(was, was, 0, 0, m, n)
  {
  }

  /** One block goes on to its next stage. */
  lemma OneFurther(next: seq<word>, now: seq<word>, was: seq<word>, lo: nat, c: nat, lo': nat, c': nat, i: nat,
                   m: nat, n: nat, r: seq<word>)
    requires BlocksAre(now, was, lo, c, m, n) && i < m && Start(i, n) + 256 * n <= |now|
    requires OnlyAt(next, now, Start(i, n), n, r) && BlockIs(r, Block(was, i, m, n), StageOf(i, lo', c'), n)
    requires lo' <= c' <= m && forall j :: 0 <= j < m && j != i ==> StageOf(j, lo', c') == StageOf(j, lo, c)
    ensures BlocksAre(next, was, lo', c', m, n)
  {
    hide BlockIs, OnlyAt, StageOf;
    forall j | 0 <= j < m
      ensures |next| == |was| && BlockIs(Block(next, j, m, n), Block(was, j, m, n), StageOf(j, lo', c'), n)
    {
      OnlyBlock(next, now, i, j, m, n, r);
      assert BlockIs(Block(now, j, m, n), Block(was, j, m, n), StageOf(j, lo, c), n);
    }
    OnlyBlock(next, now, i, i, m, n, r);
  }

  /** Protect the blocks up to the first that is refused. */
  method ProtectBlocks(src: array<word>, bkCnt: nat, bkSize: nat, ghost n: nat) returns (c: nat)
    requires n >= 1 && bkSize == 512 * n && src.Length == Start(bkCnt, n)
    requires forall j :: 0 <= j < bkCnt ==> Behind(Block(src[..], j, bkCnt, n), bkSize)
    modifies src
    ensures BlocksAre(src[..], old(src[..]), 0, c, bkCnt, n)
    ensures c < bkCnt ==> !Protectable(Block(old(src[..]), c, bkCnt, n), bkSize)
  {
    ghost var was := src[..];
    AllUntouched(was, bkCnt, n);
    hide Start, BlockIs, OnlyAt, Protectable, Behind, Protected;
    var at := 0;
    c := 0;
    assert Start(0, n) == 0 by {
      StartOrder(0, 0, n);
      StartZero(n);
    }
    while c < bkCnt
      invariant c <= bkCnt && at == Start(c, n) && BlocksAre(src[..], was, 0, c, bkCnt, n)
    {
      StartNext(c, bkCnt, n);
      ghost var now := src[..];
      assert BlockIs(Block(now, c, bkCnt, n), Block(was, c, bkCnt, n), StageOf(c, 0, c), n);
      UntouchedIs(Block(now, c, bkCnt, n), Block(was, c, bkCnt, n), n);
      var err := PreWriteFixup(src, at, bkSize, n);
      if err < 0 {
        return;
      }
      ghost var r := Block(was, c, bkCnt, n);
      GuardedIs(r, n);
      OneFurther(src[..], now, was, 0, c, 0, c + 1, c, bkCnt, n, Protected(r, Offset(r), n));
      c := c + 1;
      at := at + bkSize / 2;
    }
  }

  lemma StartZero(n: nat)
    ensures Start(0, n) == 0
  {
  }

  lemma UntouchedIs(now: seq<word>, was: seq<word>, n: nat)
    requires n >= 1 && |was| == 256 * n && BlockIs(now, was, Untouched, n)
    ensures now == was
  {
  }

  lemma GuardedIs(r: seq<word>, n: nat)
    requires n >= 1 && |r| == 256 * n && Record(r, Offset(r), n) && Protectable(r, 512 * n)
    ensures BlockIs(Protected(r, Offset(r), n), r, Guarded, n)
  {
  }

  lemma DoneIs(p: seq<word>, r: seq<word>, n: nat)
    requires n >= 1 && |r| == 256 * n && BlockIs(p, r, Guarded, n)
    ensures Record(p, Offset(r), n) && Offset(p) == Offset(r) && BlockIs(Restored(p, Offset(r), n), r, Done, n)
  {
    ProtectedShape(r, Offset(r), n);
    RoundTrip(r, Offset(r), n);
  }

  /** Restore the first c blocks, which are protected. */
  method RestoreBlocks(src: array<word>, c: nat, bkSize: nat, ghost was: seq<word>, ghost m: nat, ghost n: nat)
    requires n >= 1 && bkSize == 512 * n && src.Length == Start(m, n) && BlocksAre(src[..], was, 0, c, m, n)
    modifies src
    ensures BlocksAre(src[..], was, c, c, m, n)
  {
    hide Start, BlockIs, OnlyAt, Restored;
    var at, i := 0, 0;
    assert Start(0, n) == 0 by {
      StartZero(n);
    }
    while i < c
      invariant 0 <= i <= c <= m && at == Start(i, n) && BlocksAre(src[..], was, i, c, m, n)
    {
      StartNext(i, m, n);
      ghost var now, r := src[..], Block(was, i, m, n);
      ghost var p := Block(now, i, m, n);
      assert BlockIs(p, r, StageOf(i, i, c), n);
      DoneIs(p, r, n);
      PostWriteFixup(src, at, Offset(r), n);
      OneFurther(src[..], now, was, i, c, i + 1, c, i, m, n, Restored(p, Offset(r), n));
      i := i + 1;
      at := at + bkSize / 2;
    }
  }

  /** Write blocks, protected while they are written: up to the first that is refused. The device has accepted
    * `written` bytes, or reports an error; `image` is what it was given. */
  method MstPwrite(src: array<word>, bkCnt0: int, bkSize: nat, written: int, ghost n: nat)
    returns (ret: int, ghost c: nat, ghost image: seq<word>)
    requires bkCnt0 >= 0 && bkSize % 512 == 0 ==>
               && n >= 1 && bkSize == 512 * n && src.Length == Start(bkCnt0, n)
               && forall j :: 0 <= j < bkCnt0 ==> Behind(Block(src[..], j, bkCnt0, n), bkSize)
    modifies src
    ensures bkCnt0 < 0 || bkSize % 512 != 0 ==> ret == -1 && src[..] == old(src[..])
    ensures bkCnt0 == 0 && bkSize % 512 == 0 ==> ret == 0 && src[..] == old(src[..])
    ensures bkCnt0 > 0 && bkSize % 512 == 0 ==>
              && BlocksAre(src[..], old(src[..]), c, c, bkCnt0, n)
              && (c < bkCnt0 ==> !Protectable(Block(old(src[..]), c, bkCnt0, n), bkSize))
              && (c == 0 ==> ret == -1)
              && (c > 0 ==> BlocksAre(image, old(src[..]), 0, c, bkCnt0, n) && ret == if written <= 0 then written
                  else written / bkSize)
  {
    c, image := 0, [];
    if bkCnt0 < 0 || bkSize % 512 != 0 {
      return -1, c, image;
    }
    if bkCnt0 == 0 {
      return 0, c, image;
    }
    ghost var was := src[..];
    hide BlocksAre, Start;
    var bkCnt := ProtectBlocks(src, bkCnt0, bkSize, n);
    c := bkCnt;
    if bkCnt == 0 {
      return -1, c, image;
    }
    image := src[..];
    RestoreBlocks(src, bkCnt, bkSize, was, bkCnt0, n);
    ret := if written <= 0 then written else written / bkSize;
  }
}
