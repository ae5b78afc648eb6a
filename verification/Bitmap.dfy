/** Setting and clearing runs of bits in a bitmap that is kept in an attribute, 8 KiB at a time. */
module Bitmap {

  const WINDOW: int := 8192

  /** The byte with bit b set only. */
  function Mask(b: nat): bv8
    requires b < 8
  {
    match b
    case 0 => 1
    case 1 => 2
    case 2 => 4
    case 3 => 8
    case 4 => 16
    case 5 => 32
    case 6 => 64
    case _ => 128
  }

  predicate ByteBit(x: bv8, b: nat)
    requires b < 8
  {
    x & Mask(b) != 0
  }

  function WithBit(x: bv8, b: nat, value: bool): bv8
    requires b < 8
  {
    With(x, Mask(b), value)
  }

  lemma MasksDiffer(b: nat, c: nat)
    requires b < 8 && c < 8 && b != c
    ensures Mask(b) & Mask(c) == 0
  {
  }

  lemma MaskIsNotZero(b: nat)
    requires b < 8
    ensures Mask(b) != 0
  {
  }

  function With(x: bv8, m: bv8, value: bool): bv8 {
    if value then x | m else x & !m
  }

  lemma OtherBit(x: bv8, m: bv8, n: bv8, value: bool)
    requires m & n == 0
    ensures With(x, m, value) & n == x & n
  {
  }

  lemma OwnBit(x: bv8, m: bv8, value: bool)
    requires m != 0
    ensures With(x, m, value) & m != 0 <==> value
  {
  }

  lemma WithBitIs(x: bv8, b: nat, value: bool, c: nat)
    requires b < 8 && c < 8
    ensures ByteBit(WithBit(x, b, value), c) == if c == b then value else ByteBit(x, c)
  {
    MaskIsNotZero(b);
    if b == c {
      hide Mask, With;
      OwnBit(x, Mask(b), value);
    } else {
      MasksDiffer(b, c);
      hide Mask, With;
      OtherBit(x, Mask(b), Mask(c), value);
    }
  }

  /** Bit b of byte k after the bits [start, end) have been set to value. */
  ghost predicate BitOk(now: bv8, was: bv8, k: int, b: nat, start: int, end: int, value: bool)
    requires b < 8
  {
    ByteBit(now, b) == if start <= 8 * k + b < end then value else ByteBit(was, b)
  }

  ghost predicate ByteOk(now: bv8, was: bv8, k: int, start: int, end: int, value: bool) {
    forall b :: 0 <= b < 8 ==> BitOk(now, was, k, b, start, end, value)
  }

  /** Exactly the bits [start, end) have been set. */
  ghost predicate BitsSet(now: seq<bv8>, was: seq<bv8>, start: int, end: int, value: bool) {
    |now| == |was| && forall k :: 0 <= k < |now| ==> ByteOk(now[k], was[k], k, start, end, value)
  }

  /** Set the bits of a partial first byte, from bit `bit0` on; the count becomes -1 when it runs out. */
  method FirstByte(x: bv8, bit0: nat, count0: nat, value: bool, ghost k: int) returns (y: bv8, count: int)
    requires 0 < bit0 < 8
    ensures ByteOk(y, x, k, 8 * k + bit0, 8 * k + bit0 + count0, value)
    ensures count == if bit0 + count0 < 8 then -1 else count0 - (8 - bit0)
  {
    y, count := x, count0;
    var bit := bit0;
    while bit % 8 != 0 && count != 0
      invariant bit0 <= bit <= 8 && count == count0 - (bit - bit0) >= 0
      invariant forall b :: 0 <= b < 8 ==> ByteBit(y, b) == if bit0 <= b < bit then value else ByteBit(x, b)
      decreases count
    {
      forall b | 0 <= b < 8
        ensures ByteBit(WithBit(y, bit, value), b) == if b == bit then value else ByteBit(y, b)
      {
        WithBitIs(y, bit, value, b);
      }
      y := WithBit(y, bit, value);
      count, bit := count - 1, bit + 1;
    }
    if bit % 8 != 0 {
      count := count - 1;
    }
  }

  /** Set the lowest `bit0` bits of the last byte. */
  method LastByte(x: bv8, bit0: nat, count0: int, value: bool, ghost k: int, ghost start: int)
    returns (y: bv8, count: int)
    requires bit0 < 8 && count0 >= bit0 && start <= 8 * k
    ensures ByteOk(y, x, k, start, 8 * k + bit0, value) && count == count0 - bit0
  {
    y, count := x, count0;
    var bit := bit0;
    while bit != 0 && count != 0
      invariant 0 <= bit <= bit0 && count == count0 - (bit0 - bit) >= bit
      invariant forall b :: 0 <= b < 8 ==> ByteBit(y, b) == if bit <= b < bit0 then value else ByteBit(x, b)
      decreases bit
    {
      count, bit := count - 1, bit - 1;
      forall b | 0 <= b < 8
        ensures ByteBit(WithBit(y, bit, value), b) == if b == bit then value else ByteBit(y, b)
      {
        WithBitIs(y, bit, value, b);
      }
      y := WithBit(y, bit, value);
    }
  }

  function Fill(value: bool): bv8 {
    if value then 0xff else 0
  }

  lemma FillOk(was: bv8, k: int, start: int, end: int, value: bool)
    requires start <= 8 * k && 8 * k + 8 <= end
    ensures ByteOk(Fill(value), was, k, start, end, value)
  {
  }

  /** Bytes before p are done, the others as they were. */
  ghost predicate DoneUpTo(now: seq<bv8>, was: seq<bv8>, p: int, start: int, end: int, value: bool) {
    && |now| == |was|
    && (forall k :: 0 <= k < p && k < |was| ==> ByteOk(now[k], was[k], k, start, end, value))
    && (forall k :: p <= k < |was| && 0 <= k ==> now[k] == was[k])
  }

  /** The buffer is filled with the value, but for a first partial byte. */
  ghost predicate Filled(buf: seq<bv8>, was: seq<bv8>, p: int, first: int, start: int, end: int, value: bool) {
    && (forall j :: first <= j < |buf| && 0 <= j ==> buf[j] == Fill(value))
    && (first == 1 ==> |buf| > 0 && 0 <= p < |was| && ByteOk(buf[0], was[p], p, start, end, value))
  }

  /** Where the loop stands: `count` bits from the byte boundary startBit on are still to be set, in a window of
    * bufsize bytes that begins `first` bytes earlier. */
  ghost predicate Standing(startBit: int, count: int, first: int, bufsize: int, start: int, end: int, size: int) {
    && 0 <= first <= 1 && startBit % 8 == 0 && start <= startBit && startBit / 8 >= first && end <= 8 * size
    && (if count < 0 then count == -1 && first == 1 && end < startBit && startBit / 8 <= size
        else startBit + count == end)
    && bufsize == (if (count + 7) / 8 + first > WINDOW then WINDOW else (count + 7) / 8 + first)
  }

  /** Every byte of a prepared window is right. */
  ghost predicate WindowIs(buf: seq<bv8>, was: seq<bv8>, p: int, bufsize: int, start: int, end: int, value: bool) {
    && 0 <= p && bufsize <= |buf| && p + bufsize <= |was|
    && forall j :: 0 <= j < bufsize ==> ByteOk(buf[j], was[p + j], p + j, start, end, value)
  }

  lemma WindowOk(buf: seq<bv8>, was: seq<bv8>, startBit: int, count: int, first: int, bufsize: int, start: int,
                 end: int, value: bool, last: int)
    requires Standing(startBit, count, first, bufsize, start, end, |was|) && bufsize <= |buf|
    requires forall j :: first <= j < bufsize && j != last ==> buf[j] == Fill(value)
    requires first == 1 ==> bufsize >= 1 && ByteOk(buf[0], was[startBit / 8 - 1], startBit / 8 - 1, start, end, value)
    requires last == -1 ==> count <= 0 || count % 8 == 0 || (count + 7) / 8 + first > WINDOW
    requires last != -1 ==> count > 0 && last == bufsize - 1 == (count + 7) / 8 + first - 1
                            && ByteOk(buf[last], was[startBit / 8 - first + last], startBit / 8 - first + last, start,
                                      end, value)
    ensures WindowIs(buf, was, startBit / 8 - first, bufsize, start, end, value)
  {
    var p := startBit / 8 - first;
    hide ByteOk, Fill;
    forall j | 0 <= j < bufsize
      ensures ByteOk(buf[j], was[p + j], p + j, start, end, value)
    {
      if j >= first && j != last {
        FillOk(was[p + j], p + j, start, end, value);
      }
    }
  }

  /** Prepare the last byte of the window if it is a partial one. */
  method PrepareLast(a: array<bv8>, buf: array<bv8>, startBit: int, count0: int, first: int, bufsize: int, bit0: nat,
                     value: bool, ghost start: int, ghost end: int)
    returns (count: int, bit: nat, last: int)
    requires buf != a && Standing(startBit, count0, first, bufsize, start, end, a.Length) && bufsize <= buf.Length
    requires count0 >= 0 ==> bit0 == count0 % 8
    requires forall j :: first <= j < bufsize ==> buf[j] == Fill(value)
    requires bit0 < 8
    modifies buf
    ensures last == -1 ==> buf[..] == old(buf[..]) && count == count0 && bit == bit0
                           && (count <= 0 || count % 8 == 0 || (count + 7) / 8 + first > WINDOW)
    ensures last != -1 ==>
              && count0 > 0 && last == bufsize - 1 == (count0 + 7) / 8 + first - 1 && first <= last
              && bit == 0 && bit0 > 0 && count == count0 - bit0 && count % 8 == 0
              && startBit / 8 - first + last < a.Length
              && ByteOk(buf[last], a[startBit / 8 - first + last], startBit / 8 - first + last, start, end, value)
              && forall j :: 0 <= j < buf.Length && j != last ==> buf[j] == old(buf[j])
  {
    count, bit, last := count0, bit0, -1;
    if count > 0 && bit != 0 {
      var lastbytePos := (count + 7) / 8 + first;
      if lastbytePos <= bufsize {
        last := lastbytePos - 1;
        ghost var k := startBit / 8 - first + last;
        assert (startBit + count) / 8 == k && 8 * k + bit == end;
        var x := a[(startBit + count) / 8];
        x, count := LastByte(x, bit, count, value, k, start);
        buf[last] := x;
        bit := 0;
      }
    }
  }

  /** Write the window. */
  method WriteWindow(a: array<bv8>, buf: array<bv8>, p: int, bufsize: int, ghost was: seq<bv8>, ghost start: int,
                     ghost end: int, value: bool)
    requires a != buf && WindowIs(buf[..], was, p, bufsize, start, end, value) && 0 <= bufsize
    requires DoneUpTo(a[..], was, p, start, end, value)
    modifies a
    ensures DoneUpTo(a[..], was, p + bufsize, start, end, value)
  {
    ghost var before := a[..];
    assert forall j :: 0 <= j < bufsize ==> buf[j] == buf[..][j];
    forall k | p <= k < p + bufsize {
      a[k] := buf[k - p];
    }
    hide ByteOk;
    forall k | 0 <= k < p + bufsize
      ensures ByteOk(a[k], was[k], k, start, end, value)
    {
      if k < p {
        assert a[k] == before[k];
      } else {
        assert a[k] == buf[k - p] && was[p + (k - p)] == was[k];
      }
    }
    assert forall k :: p + bufsize <= k < |was| ==> a[k] == before[k];
  }

  /** What holds between two windows. */
  ghost predicate Between(now: seq<bv8>, was: seq<bv8>, buf: seq<bv8>, startBit: int, count: int, first: int,
                          bufsize: int, start: int, end: int, value: bool) {
    && Standing(startBit, count, first, bufsize, start, end, |was|) && bufsize <= |buf|
    && DoneUpTo(now, was, startBit / 8 - first, start, end, value)
    && (forall j :: first <= j < bufsize ==> buf[j] == Fill(value))
    && (first == 1 ==> bufsize >= 1 && ByteOk(buf[0], was[startBit / 8 - 1], startBit / 8 - 1, start, end, value))
  }

  /** Where the next window starts, after one whose last byte was handled or not. */
  lemma NextStanding(startBit0: int, count0: int, first: int, bufsize: int, start: int, end: int, size: int,
                     handled: bool, count1: int)
    requires Standing(startBit0, count0, first, bufsize, start, end, size)
    requires handled ==>
             count0 > 0 && bufsize == (count0 + 7) / 8 + first && first < bufsize && count1 == count0 - count0 % 8
               && count0 % 8 > 0
    requires !handled ==> count1 == count0 && (count0 <= 0 || count0 % 8 == 0 || (count0 + 7) / 8 + first > WINDOW)
    ensures var tmp := (bufsize - first - if handled then 1 else 0) * 8;
            var count := count1 - tmp;
            && startBit0 / 8 - first >= 0 && startBit0 / 8 - first + bufsize <= size
            && (handled ==> count == 0)
            && (count <= 0 ==> end <= 8 * (startBit0 / 8 - first + bufsize))
            && (count > 0 ==>
                  && count < count0 && count % 8 == count0 % 8
                  && (startBit0 + tmp) / 8 == startBit0 / 8 - first + bufsize
                  && Standing(startBit0 + tmp, count, 0,
                              if bufsize > (count + 7) / 8 then (count + 7) / 8 else bufsize, start, end, size))
  {
  }

  /** Prepare the window and write it. */
  method Flush(a: array<bv8>, buf: array<bv8>, startBit: int, count0: int, first: int, bufsize: int, bit0: nat,
               value: bool, ghost was: seq<bv8>, ghost start: int, ghost end: int)
    returns (count: int, bit: nat, last: int)
    requires a != buf && Between(a[..], was, buf[..], startBit, count0, first, bufsize, start, end, value)
    requires bit0 < 8 && (count0 >= 0 ==> bit0 == count0 % 8)
    modifies a, buf
    ensures startBit / 8 - first + bufsize <= a.Length == |was|
    ensures DoneUpTo(a[..], was, startBit / 8 - first + bufsize, start, end, value)
    ensures last != -1 ==> count0 > 0 && bufsize == (count0 + 7) / 8 + first && first < bufsize && last == bufsize - 1
                           && count == count0 - count0 % 8 && count0 % 8 > 0
    ensures last == -1 ==>
            count == count0 && bit == bit0 && (count0 <= 0 || count0 % 8 == 0 || (count0 + 7) / 8 + first > WINDOW)
    ensures forall j :: first <= j < bufsize && j != last ==> buf[j] == Fill(value)
  {
    assert forall k :: startBit / 8 - first <= k < |was| && 0 <= k ==> a[k] == a[..][k] == was[k];
    assert forall j :: 0 <= j < buf.Length ==> buf[j] == buf[..][j];
    assert a.Length == |was| && 0 <= bufsize;
    hide ByteOk, Fill, DoneUpTo, WindowIs;
    count, bit, last := PrepareLast(a, buf, startBit, count0, first, bufsize, bit0, value, start, end);
    assert forall j :: 0 <= j < buf.Length && j != last ==> buf[j] == old(buf[..])[j];
    WindowOk(buf[..], was, startBit, count0, first, bufsize, start, end, value, last);
    WriteWindow(a, buf, startBit / 8 - first, bufsize, was, start, end, value);
  }

  /** One window, and going on behind it. A last byte is handled only when nothing is left. */
  method Round(a: array<bv8>, buf: array<bv8>, startBit0: int, count0: int, first: int, bufsize0: int, bit0: nat,
               value: bool, ghost was: seq<bv8>, ghost start: int, ghost end: int)
    returns (startBit: int, count: int, bufsize: int, bit: nat, last: int)
    requires a != buf && Between(a[..], was, buf[..], startBit0, count0, first, bufsize0, start, end, value)
    requires bit0 < 8 && (count0 >= 0 ==> bit0 == count0 % 8)
    modifies a, buf
    ensures last != -1 ==> count == 0
    ensures count > 0 ==> bit == count % 8 < 8 && count < count0
                          && Between(a[..], was, buf[..], startBit, count, 0, bufsize, start, end, value)
    ensures count <= 0 ==> BitsSet(a[..], was, start, end, value)
  {
    assert 0 <= first <= 1 && bufsize0 <= buf.Length && (first == 1 ==> bufsize0 >= 1);
    assert Standing(startBit0, count0, first, bufsize0, start, end, |was|);
    count, bit, last := Flush(a, buf, startBit0, count0, first, bufsize0, bit0, value, was, start, end);
    NextStanding(startBit0, count0, first, bufsize0, start, end, |was|, last != -1, count);
    hide Standing, DoneUpTo, BitsSet, ByteOk, Fill;
    var tmp := (bufsize0 - first - if last != -1 then 1 else 0) * 8;
    if first != 0 {
      buf[0] := Fill(value);
    }
    startBit, count, bufsize := startBit0 + tmp, count - tmp, bufsize0;
    if bufsize > (count + 7) / 8 {
      bufsize := (count + 7) / 8;
    }
    if count <= 0 {
      AllDone(a[..], was, startBit0 / 8 - first + bufsize0, start, end, value);
    }
  }

  /** The bytes behind the last bit are as they were. */
  lemma AllDone(now: seq<bv8>, was: seq<bv8>, p: int, start: int, end: int, value: bool)
    requires DoneUpTo(now, was, p, start, end, value) && end <= 8 * p
    ensures BitsSet(now, was, start, end, value)
  {
  }

  /** The buffer for the first window, with a first partial byte in it. */
  method FirstWindow(a: array<bv8>, startBit0: nat, count0: nat, value: bool)
    returns (buf: array<bv8>, startBit: int, count: int, first: int, bufsize: int, bit: nat)
    requires startBit0 + count0 <= 8 * a.Length
    ensures fresh(buf) && bit < 8 && (count >= 0 ==> bit == count % 8)
    ensures Between(a[..], a[..], buf[..], startBit, count, first, bufsize, startBit0, startBit0 + count0, value)
  {
    startBit, count := startBit0, count0;
    bit := startBit0 % 8;
    first := if bit != 0 then 1 else 0;
    bufsize := (count - (if bit != 0 then 8 - bit else 0) + 7) / 8 + first;
    if bufsize > WINDOW {
      bufsize := WINDOW;
    }
    buf := new bv8[bufsize](_ => Fill(value));
    if bit != 0 {
      var x;
      x, count := FirstByte(a[startBit / 8], bit, count, value, startBit / 8);
      buf[0] := x;
      startBit := (startBit + 7) / 8 * 8;
    }
    bit := count % 8;
    NothingYet(a[..], startBit / 8 - first, startBit0, startBit0 + count0, value);
  }

  /** Set or clear `count0` bits from bit `startBit0` on, and no others. Byte offsets are kept in an int. */
  method SetBitsInRun(a: array<bv8>, startBit0: int, count0: int, value: bool) returns (ret: int)
    requires startBit0 >= 0 && count0 >= 0 ==> startBit0 + count0 <= 8 * a.Length
    requires a.Length < 0x8000_0000
    modifies a
    ensures startBit0 < 0 || count0 < 0 ==> ret == -1 && a[..] == old(a[..])
    ensures startBit0 >= 0 && count0 >= 0 ==>
            ret == 0 && BitsSet(a[..], old(a[..]), startBit0, startBit0 + count0, value)
  {
    if startBit0 < 0 || count0 < 0 {
      return -1;
    }
    hide *;
    ghost var was, end := a[..], startBit0 + count0;
    var buf, startBit, count, first, bufsize, bit := FirstWindow(a, startBit0, count0, value);
    var more := true;
    while more
      invariant fresh(buf) && (more ==> bit < 8 && (count >= 0 ==> bit == count % 8))
      invariant if more then Between(a[..], was, buf[..], startBit, count, first, bufsize, startBit0, end, value)
                else BitsSet(a[..], was, startBit0, end, value)
      decreases more, count + 2
    {
      var last;
      startBit, count, bufsize, bit, last :=
        Round(a, buf, startBit, count, first, bufsize, bit, value, was, startBit0, end);
      // the last byte is never handled while something is left
      assert last == -1 || count == 0;
      first := 0;
      more := count > 0;
    }
    ret := 0;
  }

  lemma NothingYet(was: seq<bv8>, p: int, start: int, end: int, value: bool)
    requires 8 * p <= start
    ensures DoneUpTo(was, was, p, start, end, value)
  {
  }

  /** The bit with number i. */
  predicate BitAt(s: seq<bv8>, i: nat)
    requires i / 8 < |s|
  {
    ByteBit(s[i / 8], i % 8)
  }

  /** The same, read by shifting. */
  function BitGet(s: seq<bv8>, i: nat): bv8
    requires i / 8 < |s|
  {
    Shifted(s[i / 8], i % 8) & 1
  }

  function Shifted(x: bv8, b: nat): bv8
    requires b < 8
  {
    match b
    case 0 => x
    case 1 => x >> 1
    case 2 => x >> 2
    case 3 => x >> 3
    case 4 => x >> 4
    case 5 => x >> 5
    case 6 => x >> 6
    case _ => x >> 7
  }

  lemma BitGetIs(s: seq<bv8>, i: nat)
    requires i / 8 < |s|
    ensures BitGet(s, i) == if BitAt(s, i) then 1 else 0
  {
    ShiftedIs(s[i / 8], i % 8);
    hide Shifted, ByteBit;
  }

  lemma ShiftedIs(x: bv8, b: nat)
    requires b < 8
    ensures Shifted(x, b) & 1 == if ByteBit(x, b) then 1 else 0
  {
  }

  /** In terms of bit numbers: the bits from start to end - 1 have the value, no other has changed. */
  ghost predicate Exactly(now: seq<bv8>, was: seq<bv8>, start: int, end: int, value: bool) {
    && |now| == |was|
    && forall i: nat :: i / 8 < |was| ==> BitAt(now, i) == if start <= i < end then value else BitAt(was, i)
  }

  lemma BitsSetMeans(now: seq<bv8>, was: seq<bv8>, start: int, end: int, value: bool)
    ensures BitsSet(now, was, start, end, value) <==> Exactly(now, was, start, end, value)
  {
    hide ByteBit;
    if BitsSet(now, was, start, end, value) {
      forall i: nat | i / 8 < |was|
        ensures BitAt(now, i) == if start <= i < end then value else BitAt(was, i)
      {
        assert ByteOk(now[i / 8], was[i / 8], i / 8, start, end, value);
        assert BitOk(now[i / 8], was[i / 8], i / 8, i % 8, start, end, value);
      }
    }
    if Exactly(now, was, start, end, value) {
      forall k, b | 0 <= k < |was| && 0 <= b < 8
        ensures BitOk(now[k], was[k], k, b, start, end, value)
      {
        var i := 8 * k + b;
        assert i / 8 == k && i % 8 == b;
        assert BitAt(now, i) == if start <= i < end then value else BitAt(was, i);
      }
    }
  }

  lemma OneBit(x: bv8, bit: nat, end: int, value: bool)
    requires end == bit + 1
    ensures ByteOk(WithBit(x, bit % 8, value), x, bit / 8, bit, end, value)
  {
    var k := bit / 8;
    forall b | 0 <= b < 8
      ensures BitOk(WithBit(x, bit % 8, value), x, k, b, bit, end, value)
    {
      WithBitIs(x, bit % 8, value, b);
      hide ByteBit, WithBit;
    }
  }

  lemma NoBit(x: bv8, k: int, bit: nat, end: int, value: bool)
    requires end == bit + 1 && k != bit / 8
    ensures ByteOk(x, x, k, bit, end, value)
  {
    hide ByteBit;
  }

  lemma OneBitSet(was: seq<bv8>, now: seq<bv8>, bit: nat, end: int, value: bool)
    requires bit / 8 < |was| == |now| && end == bit + 1
    requires now[bit / 8] == WithBit(was[bit / 8], bit % 8, value)
    requires forall k :: 0 <= k < |was| && k != bit / 8 ==> now[k] == was[k]
    ensures BitsSet(now, was, bit, end, value)
  {
    OneBit(was[bit / 8], bit, end, value);
    hide ByteOk, WithBit;
    var at := bit / 8;
    forall k | 0 <= k < |was|
      ensures ByteOk(now[k], was[k], k, bit, end, value)
    {
      if k != at {
        NoBit(was[k], k, bit, end, value);
      }
    }
  }

  /** Set or clear one bit; an improper value is ignored. */
  method BitSet(a: array<bv8>, bit: nat, newValue: nat)
    requires bit / 8 < a.Length
    modifies a
    ensures newValue > 1 ==> a[..] == old(a[..])
    ensures newValue <= 1 ==> BitsSet(a[..], old(a[..]), bit, bit + 1, newValue == 1)
  {
    if newValue <= 1 {
      SetBit(a, bit, newValue != 0);
    }
  }

  method SetBit(a: array<bv8>, bit: nat, value: bool)
    requires bit / 8 < a.Length
    modifies a
    ensures BitsSet(a[..], old(a[..]), bit, bit + 1, value)
  {
    hide *;
    var at, b := bit / 8, bit % 8;
    a[at] := WithBit(a[at], b, value);
    OneBitSet(old(a[..]), a[..], bit, bit + 1, value);
  }
}
