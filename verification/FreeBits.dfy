/** Counting the clear bits of a bitmap, and what setting a run does to their number. */
module FreeBits {
  import opened Bitmap

  const CHUNK: int := 65536

  /** The bits below n that are set. */
  function Ones(x: bv8, n: nat): (k: nat)
    requires n <= 8
    ensures k <= n
  {
    if n == 0 then 0 else Ones(x, n - 1) + if ByteBit(x, n - 1) then 1 else 0
  }

  function ZeroBits(x: bv8): nat {
    8 - Ones(x, 8)
  }

  /** The clear bits of a sequence of bytes. */
  function Free(s: seq<bv8>): nat {
    if s == [] then 0 else Free(s[..|s| - 1]) + ZeroBits(s[|s| - 1])
  }

  lemma {:induction false} FreeConcat(s: seq<bv8>, t: seq<bv8>)
    ensures Free(s + t) == Free(s) + Free(t)
  {
    if t == [] {
      assert s + t == s;
    } else {
      FreeConcat(s, t[..|t| - 1]);
      assert (s + t)[..|s + t| - 1] == s + t[..|t| - 1];
    }
  }

  // The table of clear bits. For values below 256 the counting macro stays within the low byte.

  function Bcx(x: bv8): bv8 {
    x - ((x >> 1) & 0x77) - ((x >> 2) & 0x33) - ((x >> 3) & 0x11)
  }

  function BitCount(x: bv8): bv8 {
    ((Bcx(x) + (Bcx(x) >> 4)) & 0x0f) % 255
  }

  function One(x: bv8, m: bv8): bv8 {
    if x & m != 0 then 1 else 0
  }

  function LowOnes(x: bv8): bv8 {
    One(x, 1) + One(x, 2) + One(x, 4) + One(x, 8)
  }

  function HighOnes(x: bv8): bv8 {
    One(x, 16) + One(x, 32) + One(x, 64) + One(x, 128)
  }

  lemma NibbleSums(x: bv8)
    ensures (Bcx(x) + (Bcx(x) >> 4)) & 0x0f == LowOnes(x) + HighOnes(x)
  {
  }

  lemma LowNibble(y: bv8)
    ensures (y & 0x0f) % 255 == y & 0x0f
  {
  }

  lemma Add(a: bv8, b: bv8)
    requires a <= 4 && b <= 4
    ensures a + b <= 8 && (a + b) as int == (a as int) + (b as int)
  {
  }

  lemma Add4(a: bv8, b: bv8, c: bv8, d: bv8)
    requires a <= 1 && b <= 1 && c <= 1 && d <= 1
    ensures a + b + c + d <= 4 && (a + b + c + d) as int == (a as int) + (b as int) + (c as int) + (d as int)
  {
    Add(a, b);
    Add(a + b, c);
    Add(a + b + c, d);
  }

  lemma OneIs(x: bv8, b: nat, m: bv8)
    requires b < 8 && m == Mask(b)
    ensures One(x, m) <= 1 && Ones(x, b + 1) == Ones(x, b) + One(x, m) as int
  {
  }

  lemma LowIs(x: bv8)
    ensures LowOnes(x) <= 4 && LowOnes(x) as int == Ones(x, 4)
  {
    assert Ones(x, 0) == 0;
    OneIs(x, 0, 1);
    OneIs(x, 1, 2);
    OneIs(x, 2, 4);
    OneIs(x, 3, 8);
    hide One, Ones;
    Add4(One(x, 1), One(x, 2), One(x, 4), One(x, 8));
  }

  lemma HighIs(x: bv8)
    ensures HighOnes(x) <= 4 && HighOnes(x) as int == Ones(x, 8) - Ones(x, 4)
  {
    OneIs(x, 4, 16);
    OneIs(x, 5, 32);
    OneIs(x, 6, 64);
    OneIs(x, 7, 128);
    hide One, Ones;
    Add4(One(x, 16), One(x, 32), One(x, 64), One(x, 128));
  }

  /** The macro counts the bits that are set. */
  lemma BitCountIs(x: bv8)
    ensures BitCount(x) as int == Ones(x, 8)
  {
    NibbleSums(x);
    LowNibble(Bcx(x) + (Bcx(x) >> 4));
    hide Bcx, LowOnes, HighOnes;
    LowIs(x);
    HighIs(x);
    Add(LowOnes(x), HighOnes(x));
  }

  /** The number of clear bits for every byte value. */
  ghost predicate IsLut(lut: seq<nat>) {
    |lut| == 256 && forall x: bv8 :: lut[x as int] == ZeroBits(x)
  }

  method InitLut256() returns (lut: array<nat>)
    ensures fresh(lut) && IsLut(lut[..])
  {
    lut := new nat[256];
    var i := 0;
    while i < 256
      invariant 0 <= i <= 256 && forall x: bv8 :: x as int < i ==> lut[x as int] == ZeroBits(x)
    {
      BitCountIs(i as bv8);
      lut[i] := 8 - BitCount(i as bv8) as int;
      i := i + 1;
    }
    forall x: bv8
      ensures lut[..][x as int] == ZeroBits(x)
    {
      assert lut[..][x as int] == lut[x as int];
    }
  }

  /** The clear bits of a word. */
  method CountWord(buf: seq<bv8>, p: nat, lut: array<nat>) returns (free: nat)
    requires IsLut(lut[..]) && 4 * p + 4 <= |buf|
    ensures free == Free(buf[4 * p..4 * p + 4])
  {
    assert forall i :: 0 <= i < 256 ==> lut[i] == lut[..][i];
    FreeWord(buf[4 * p..4 * p + 4]);
    hide ZeroBits;
    free := lut[buf[4 * p] as int] + lut[buf[4 * p + 1] as int]
            + lut[buf[4 * p + 2] as int] + lut[buf[4 * p + 3] as int];
  }

  /** Add up a chunk: its words from the last to the first, then the bytes behind the last whole word. */
  method CountChunk(buf: seq<bv8>, lut: array<nat>) returns (free: nat)
    requires IsLut(lut[..])
    ensures free == Free(buf)
  {
    free := 0;
    hide IsLut;
    var p := |buf| / 4;
    ghost var end := 4 * p;
    while p > 0
      invariant 0 <= p <= |buf| / 4 && end == 4 * (|buf| / 4) && free == Free(buf[4 * p..end]) && IsLut(lut[..])
    {
      p := p - 1;
      var word := CountWord(buf, p, lut);
      free := free + word;
      FreeConcat(buf[4 * p..4 * p + 4], buf[4 * p + 4..end]);
      assert buf[4 * p..end] == buf[4 * p..4 * p + 4] + buf[4 * p + 4..end];
    }
    assert buf[0..end] == buf[..end];
    var rest := CountTail(buf, |buf| / 4 * 4, lut);
    free := free + rest;
    FreeConcat(buf[..end], buf[end..]);
    assert buf[..end] + buf[end..] == buf;
  }

  method CountTail(buf: seq<bv8>, end: nat, lut: array<nat>) returns (free: nat)
    requires IsLut(lut[..]) && end <= |buf|
    ensures free == Free(buf[end..])
  {
    assert forall i :: 0 <= i < 256 ==> lut[i] == lut[..][i];
    hide ZeroBits;
    free := 0;
    var i := end;
    while i < |buf|
      invariant end <= i <= |buf| && free == Free(buf[end..i])
    {
      assert buf[end..i + 1][..i - end] == buf[end..i];
      free := free + lut[buf[i] as int];
      i := i + 1;
    }
    assert buf[end..|buf|] == buf[end..];
  }

  lemma FreeWord(w: seq<bv8>)
    requires |w| == 4
    ensures Free(w) == ZeroBits(w[0]) + ZeroBits(w[1]) + ZeroBits(w[2]) + ZeroBits(w[3])
  {
    assert w[..3][..2] == w[..2] && w[..2][..1] == w[..1] && w[..1][..0] == [];
    assert Free(w[..1]) == ZeroBits(w[0]);
    assert Free(w[..2]) == Free(w[..1]) + ZeroBits(w[1]);
    assert Free(w[..3]) == Free(w[..2]) + ZeroBits(w[2]);
  }

  /** The number of clear bits of a whole attribute; -1 when it is empty. */
  method GetFreeBits(a: array<bv8>) returns (free: int)
    ensures free == if a.Length == 0 then -1 else Free(a[..])
  {
    var lut := InitLut256();
    var total := 0;
    free := 0;
    assert a[..0] == [];
    assert Free([]) == 0;
    hide IsLut, Free;
    var br := ChunkSize(a.Length, total);
    while br > 0
      invariant 0 <= total <= a.Length && br == ChunkSize(a.Length, total)
      invariant free == Free(a[..total]) && IsLut(lut[..])
      decreases a.Length - total
    {
      var chunk := CountChunk(a[total..total + br], lut);
      NextChunk(a[..], total, br);
      free := free + chunk;
      total := total + br;
      br := ChunkSize(a.Length, total);
    }
    assert a[..a.Length] == a[..];
    if total == 0 {
      free := -1;
    }
  }

  /** What a read of one chunk at this position returns. */
  function ChunkSize(size: nat, at: nat): (n: nat)
    requires at <= size
    ensures n == 0 <==> at == size
    ensures at + n <= size
  {
    if size - at < CHUNK then size - at else CHUNK
  }

  lemma NextChunk(s: seq<bv8>, at: nat, n: nat)
    requires at + n <= |s|
    ensures Free(s[..at + n]) == Free(s[..at]) + Free(s[at..at + n])
  {
    FreeConcat(s[..at], s[at..at + n]);
    assert s[..at + n] == s[..at] + s[at..at + n];
  }

  // What setting a run does

  /** How many of the numbers [lo, hi) are in [start, end). */
  function Overlap(lo: int, hi: int, start: int, end: int): nat {
    var a, b := if lo < start then start else lo, if hi > end then end else hi;
    if a < b then b - a else 0
  }

  function Signed(value: bool, k: int): int {
    if value then k else -k
  }

  /** The bits to be changed have the other value. */
  ghost predicate ReadyBits(x: bv8, k: int, start: int, end: int, value: bool) {
    forall b :: 0 <= b < 8 && start <= 8 * k + b < end ==> ByteBit(x, b) == !value
  }

  lemma {:induction false} OnesChange(now: bv8, was: bv8, k: int, n: nat, start: int, end: int, value: bool)
    requires n <= 8 && ByteOk(now, was, k, start, end, value) && ReadyBits(was, k, start, end, value)
    ensures Ones(now, n) == Ones(was, n) + Signed(value, Overlap(8 * k, 8 * k + n, start, end))
  {
    if n > 0 {
      OnesChange(now, was, k, n - 1, start, end, value);
      assert BitOk(now, was, k, n - 1, start, end, value);
      hide ByteBit;
    }
  }

  lemma FreeStep(s: seq<bv8>, n: nat)
    requires 0 < n <= |s|
    ensures Free(s[..n]) == Free(s[..n - 1]) + ZeroBits(s[n - 1])
  {
    assert s[..n][..n - 1] == s[..n - 1];
  }

  /** The clear bits of the first n bytes go down by the number of bits set there. */
  lemma {:induction false} FreeChange(now: seq<bv8>, was: seq<bv8>, n: nat, start: int, end: int, value: bool)
    requires n <= |now| && BitsSet(now, was, start, end, value)
    requires forall k :: 0 <= k < |was| ==> ReadyBits(was[k], k, start, end, value)
    ensures Free(now[..n]) == Free(was[..n]) - Signed(value, Overlap(0, 8 * n, start, end))
  {
    if n > 0 {
      FreeChange(now, was, n - 1, start, end, value);
      hide Ones, ByteOk, ReadyBits, Free;
      OnesChange(now[n - 1], was[n - 1], n - 1, 8, start, end, value);
      FreeStep(now, n);
      FreeStep(was, n);
    }
  }

  /** Setting `count` clear bits lowers the number of free bits by exactly that; clearing set bits raises it. */
  lemma SetLowersFree(now: seq<bv8>, was: seq<bv8>, start: nat, count: nat, value: bool)
    requires BitsSet(now, was, start, start + count, value) && start + count <= 8 * |was|
    requires forall k :: 0 <= k < |was| ==> ReadyBits(was[k], k, start, start + count, value)
    ensures Free(now) == Free(was) - Signed(value, count)
  {
    FreeChange(now, was, |was|, start, start + count, value);
    assert now[..|was|] == now && was[..|was|] == was;
  }
}
