/** Finding, adding and resizing attributes in the bytes of an MFT record. */
module AttributeRecords {
  import opened Bytes
  import opened Seqs
  import opened Collation
  import opened MftRecord

  datatype Found = Here(offset: nat) | NotHere(offset: nat) | Corrupt

  datatype Error = EINVAL | EPERM | EEXIST | EIO | ENOSPC | ListFailed

  datatype Outcome = Done(offset: nat) | Failed(error: Error)

  const INDEXED: byte := 1

  /** The attributes in a record that is not corrupt. */
  ghost predicate Holds(s: seq<byte>, first: nat, inUse: nat, cs: seq<seq<byte>>) {
    Laid(s, first, inUse, cs) && Attributes(cs)
  }

  // ----- finding -----

  /** A record in the bytes is read as the record alone. */
  lemma ReadAt(s: seq<byte>, at: nat, c: seq<byte>)
    requires at + |c| <= |s| && s[at..at + |c|] == c && Attribute(c)
    ensures Le32(s, at) == TypeOf(c) && Le32(s, at + 4) == |c| && s[at + 9] == c[9]
  {
    assert forall i :: 0 <= i < |c| ==> c[i] == s[at + i];
  }

  /** Compares the name and the value with those of an attribute of the type that is looked for. */
  method Examine(up: seq<char16>, q: Query, c: seq<byte>) returns (v: Verdict)
    requires Attribute(c) && TypeOf(c) == q.kind && q.kind != AT_UNUSED
    ensures v == Judge(up, q, c)
  {
    hide Le32, Le16, Compare, Collate, ValueInside, NameInside;
    if q.name == Some([]) {
      EmptyFirst(up, NameOf(c));
      if |NameOf(c)| != 0 {
        return Stop;
      }
    } else if q.name.Some? {
      var rc := FullCollate(up, q.name.value, NameOf(c), false);
      CollateSigns(up, q.name.value, NameOf(c));
      if rc < 0 {
        return Stop;
      }
      if rc > 0 {
        return Pass;
      }
    }
    if q.value.None? {
      return Hit;
    }
    var value, avl := q.value.value, |ValueOf(c)|;
    var n := if |value| < avl then |value| else avl;
    CompareByParts(value, ValueOf(c), n);
    var rc := Compare(value[..n], ValueOf(c)[..n]);
    if rc == 0 {
      if |value| == avl {
        return Hit;
      }
      if |value| < avl {
        return Stop;
      }
    } else if rc < 0 {
      return Stop;
    }
    v := Pass;
  }

  /** ntfs_attr_find: walks the record from the attribute at offset `from`. A value is only looked for in
    * resident attributes. */
  method Find(up: seq<char16>, q: Query, s: seq<byte>, first: nat, inUse: nat, from: nat, ghost cs: seq<seq<byte>>,
              ghost k0: nat)
      returns (r: Found)
    requires Holds(s, first, inUse, cs) && k0 <= |cs| && from == first + Offset(cs, k0)
    requires q.value.Some? ==> forall k :: 0 <= k < |cs| && TypeOf(cs[k]) == q.kind ==> Resident(cs[k])
    requires q.kind <= AT_END
    ensures r == match Search(up, q, cs, k0)
                 case Present(k) => Here(first + Offset(cs, k))
                 case Absent(k) => NotHere(first + Offset(cs, k))
  {
    hide Le32, Offset, Judge, Laid, Attribute;
    var a := from;
    ghost var k := k0;
    EndAt(s, first, inUse, cs);
    InUse(s, first, inUse, cs, k);
    while a <= |s|
      invariant k0 <= k <= |cs| && a == first + Offset(cs, k) && a <= inUse - 8
      invariant Search(up, q, cs, k) == Search(up, q, cs, k0)
      decreases |cs| - k
    {
      if k < |cs| {
        ChunkAt(s, first, inUse, cs, k);
        ReadAt(s, a, cs[k]);
        JudgeByType(up, q, cs[k]);
      }
      InUse(s, first, inUse, cs, k);
      var kind := Le32(s, a);
      if (q.kind != AT_UNUSED && kind > q.kind) || kind == AT_END {
        return NotHere(a);
      }
      var length := Le32(s, a + 4);
      if length == 0 {
        break;
      }
      if q.kind == AT_UNUSED {
        return Here(a);
      }
      if kind == q.kind {
        var v := Examine(up, q, s[a..a + length]);
        if v == Stop {
          return NotHere(a);
        }
        if v == Hit {
          return Here(a);
        }
      }
      k := k + 1;
      a := a + length;
    }
    r := Corrupt;
  }

  lemma JudgeByType(up: seq<char16>, q: Query, c: seq<byte>)
    requires Attribute(c)
    ensures |c| >= RESIDENT_END && TypeOf(c) < AT_END
    ensures q.kind == AT_UNUSED ==> Judge(up, q, c) == Hit
    ensures q.kind != AT_UNUSED && TypeOf(c) > q.kind ==> Judge(up, q, c) == Stop
    ensures q.kind != AT_UNUSED && TypeOf(c) < q.kind ==> Judge(up, q, c) == Pass
  {
  }

  /** The search stays in the part of the record in use. */
  lemma InUse(s: seq<byte>, first: nat, inUse: nat, cs: seq<seq<byte>>, k: nat)
    requires Laid(s, first, inUse, cs) && k <= |cs|
    ensures first + Offset(cs, k) + 8 <= inUse <= |s|
    ensures k == |cs| ==> first + Offset(cs, k) == inUse - 8 && Le32(s, inUse - 8) == AT_END
  {
    if k < |cs| {
      ChunkAt(s, first, inUse, cs, k);
    } else {
      EndAt(s, first, inUse, cs);
    }
  }

  // ----- moving and writing bytes -----

  /** n bytes copied from src to dst. */
  function Moved(s: seq<byte>, dst: nat, src: nat, n: nat): (r: seq<byte>)
    requires dst + n <= |s| && src + n <= |s|
    ensures |r| == |s|
    ensures forall i :: 0 <= i < |s| ==> r[i] == if dst <= i < dst + n then s[i - dst + src] else s[i]
  {
    s[..dst] + s[src..src + n] + s[dst + n..]
  }

  ghost predicate Gap(s: seq<byte>, first: nat, inUse: nat, cs: seq<seq<byte>>, k: nat, size: nat)
    requires k <= |cs|
  {
    var pos := first + Offset(cs, k);
    && pos + size + |Flat(cs[k..])| + 8 == inUse <= |s|
    && s[first..pos] == Flat(cs[..k])
    && s[pos + size..inUse - 8] == Flat(cs[k..])
    && Le32(s, inUse - 8) == AT_END
  }

  /** The bytes outside [from, to) are as before. */
  ghost predicate OnlyIn(s: seq<byte>, was: seq<byte>, from: nat, to: nat) {
    |s| == |was| && forall i :: 0 <= i < |s| && !(from <= i < to) ==> s[i] == was[i]
  }

  /** What is in both records at different places. */
  lemma Shifted(s: seq<byte>, was: seq<byte>, to: nat, from: nat, n: nat)
    requires to + n <= |s| && from + n <= |was|
    requires forall i :: to <= i < to + n ==> s[i] == was[i - to + from]
    ensures s[to..to + n] == was[from..from + n]
  {
    var a, b := s[to..to + n], was[from..from + n];
    forall i | 0 <= i < n ensures a[i] == b[i] {
      assert a[i] == s[to + i];
    }
  }

  lemma SplitAt(cs: seq<seq<byte>>, k: nat)
    requires k <= |cs|
    ensures Flat(cs) == Flat(cs[..k]) + Flat(cs[k..])
  {
    assert cs == cs[..k] + cs[k..];
    FlatConcat(cs[..k], cs[k..]);
  }

  lemma SplitBytes(s: seq<byte>, from: nat, to: nat, a: seq<byte>, b: seq<byte>)
    requires from <= to <= |s|
    ensures s[from..to] == a + b <==> from + |a| + |b| == to && s[from..from + |a|] == a && s[from + |a|..to] == b
  {
    if s[from..to] == a + b {
      Middle(s, from, to, [], a, b);
      Middle(s, from, to, a, b, []);
      assert [] + a + b == a + b && a + b + [] == a + b;
    }
    if from + |a| + |b| == to {
      assert s[from..to] == s[from..from + |a|] + s[from + |a|..to];
    }
  }

  lemma LaidCut(s: seq<byte>, first: nat, inUse: nat, cs: seq<seq<byte>>, k: nat)
    requires k <= |cs|
    ensures Laid(s, first, inUse, cs) <==> Gap(s, first, inUse, cs, k, 0)
  {
    SplitAt(cs, k);
    if first + |Flat(cs)| + 8 == inUse <= |s| {
      SplitBytes(s, first, inUse - 8, Flat(cs[..k]), Flat(cs[k..]));
    }
  }

  /** Moving the end of the record from one gap size to another. */
  lemma GapMoved(s: seq<byte>, now: seq<byte>, first: nat, inUse: nat, cs: seq<seq<byte>>, k: nat, size: nat,
                 size': nat)
    requires k <= |cs| && Gap(s, first, inUse, cs, k, size) && inUse - size + size' <= |s|
    requires now == Moved(s, first + Offset(cs, k) + size', first + Offset(cs, k) + size,
                          inUse - first - Offset(cs, k) - size)
    ensures Gap(now, first, inUse - size + size', cs, k, size')
  {
    var pos := first + Offset(cs, k);
    var rest, end := |Flat(cs[k..])|, inUse - size + size';
    Shifted(now, s, first, first, pos - first);
    Shifted(now, s, pos + size', pos + size, rest);
    var e := end - 8;
    assert now[e] == s[inUse - 8] && now[e + 1] == s[inUse - 7] && now[e + 2] == s[inUse - 6]
      && now[e + 3] == s[inUse - 5];
  }

  /** Writing in the gap only leaves the rest as it is. */
  lemma GapKept(s: seq<byte>, now: seq<byte>, first: nat, inUse: nat, cs: seq<seq<byte>>, k: nat, size: nat)
    requires k <= |cs| && Gap(s, first, inUse, cs, k, size)
    requires OnlyIn(now, s, first + Offset(cs, k), first + Offset(cs, k) + size)
    ensures Gap(now, first, inUse, cs, k, size)
  {
    var pos := first + Offset(cs, k);
    Shifted(now, s, first, first, pos - first);
    Shifted(now, s, pos + size, pos + size, |Flat(cs[k..])|);
  }

  /** A gap that holds a record is a place for it in the list. */
  lemma GapFilled(s: seq<byte>, first: nat, inUse: nat, cs: seq<seq<byte>>, k: nat, c: seq<byte>)
    requires k <= |cs| && Gap(s, first, inUse, cs, k, |c|)
    requires first + Offset(cs, k) + |c| <= |s| && s[first + Offset(cs, k)..first + Offset(cs, k) + |c|] == c
    ensures Laid(s, first, inUse, With(cs, k, c))
  {
    var now := With(cs, k, c);
    var pos := first + Offset(cs, k);
    FlatCut(now, k);
    assert now[..k] == cs[..k] && now[k + 1..] == cs[k..];
    assert s[first..inUse - 8] == s[first..pos] + s[pos..pos + |c|] + s[pos + |c|..inUse - 8];
  }

  // ----- the fields of a resident attribute -----

  datatype Header = Header(kind: nat, length: nat, nameLength: byte, flags: nat, instance: nat, size: nat,
                           valueOffset: nat)

  /** The fields fit in their widths. */
  predicate Fits(h: Header) {
    h.kind < AT_END && h.length <= 0xffffffff && h.flags < 65536 && h.instance < 65536 && h.size <= 0xffffffff
      && h.valueOffset < 65536
  }

  ghost predicate HasHeader(s: seq<byte>, h: Header)
    requires |s| >= RESIDENT_END
  {
    && Le32(s, 0) == h.kind && Le32(s, 4) == h.length && s[8] == 0 && s[9] == h.nameLength
    && Le16(s, 10) == (if h.nameLength > 0 then RESIDENT_END else 0)
    && Le16(s, 12) == h.flags && Le16(s, 14) == h.instance
    && Le32(s, 16) == h.size && Le16(s, 20) == h.valueOffset && s[22] == (if h.kind == AT_FILE_NAME then INDEXED else 0)
  }

  function Digit(w: nat, scale: nat): byte
    requires scale > 0
  {
    w / scale % 256
  }

  lemma Digits16(w: nat)
    requires w < 65536
    ensures (Digit(w, 1) as int) + 256 * (Digit(w, 256) as int) == w
  {
  }

  lemma Digits32(w: nat)
    requires w <= 0xffffffff
    ensures (Digit(w, 1) as int) + 256 * (Digit(w, 256) as int)
            + 65536 * ((Digit(w, 65536) as int) + 256 * (Digit(w, 16777216) as int)) == w
  {
    assert w / 65536 / 256 == w / 16777216;
  }

  method Put16(m: array<byte>, at: nat, w: nat)
    requires at + 1 < m.Length && w < 65536
    modifies m
    ensures Le16(m[..], at) == w && OnlyIn(m[..], old(m[..]), at, at + 2)
  {
    Digits16(w);
    m[at], m[at + 1] := Digit(w, 1), Digit(w, 256);
  }

  function Word16(w: nat): (b: seq<byte>)
    ensures |b| == 2
  {
    [Digit(w, 1), Digit(w, 256)]
  }

  function Word32(w: nat): (b: seq<byte>)
    ensures |b| == 4
  {
    [Digit(w, 1), Digit(w, 256), Digit(w, 65536), Digit(w, 16777216)]
  }

  /** The fields of the header, up to the reserved byte at its end. */
  function HeaderBytes(h: Header): (b: seq<byte>)
    ensures |b| == RESIDENT_END - 1
  {
    Word32(h.kind) + Word32(h.length) + [0, h.nameLength] + [if h.nameLength > 0 then 24 else 0, 0]
    + Word16(h.flags) + Word16(h.instance)
    + Word32(h.size) + Word16(h.valueOffset) + [if h.kind == AT_FILE_NAME then INDEXED else 0]
  }

  lemma HeaderIsRead(h: Header, c: seq<byte>)
    requires Fits(h) && |c| >= RESIDENT_END && c[..RESIDENT_END - 1] == HeaderBytes(h)
    ensures HasHeader(c, h)
  {
    hide Digit;
    Digits32(h.kind);
    Digits32(h.length);
    Digits16(h.flags);
    Digits16(h.instance);
    Digits32(h.size);
    Digits16(h.valueOffset);
    var b := c[..RESIDENT_END - 1];
    assert b[0] == c[0] && b[1] == c[1] && b[2] == c[2] && b[3] == c[3];
    assert b[4] == c[4] && b[5] == c[5] && b[6] == c[6] && b[7] == c[7];
    assert b[8] == c[8] && b[9] == c[9] && b[10] == c[10] && b[11] == c[11];
    assert b[12] == c[12] && b[13] == c[13] && b[14] == c[14] && b[15] == c[15];
    assert b[16] == c[16] && b[17] == c[17] && b[18] == c[18] && b[19] == c[19];
    assert b[20] == c[20] && b[21] == c[21] && b[22] == c[22];
  }

  ghost predicate Reads(s: seq<byte>, at: nat, data: seq<byte>) {
    at + |data| <= |s| && s[at..at + |data|] == data
  }

  method CopyBytes(m: array<byte>, at: nat, data: seq<byte>)
    requires at + |data| <= m.Length
    modifies m
    ensures Reads(m[..], at, data) && OnlyIn(m[..], old(m[..]), at, at + |data|)
  {
    for i := 0 to |data|
      invariant forall j :: at <= j < at + i ==> m[j] == data[j - at]
      invariant OnlyIn(m[..], old(m[..]), at, at + |data|)
    {
      m[at + i] := data[i];
    }
  }

  method CopyName(m: array<byte>, at: nat, name: seq<char16>)
    requires at + 2 * |name| <= m.Length
    modifies m
    ensures Chars(m[..], at, |name|) == name && OnlyIn(m[..], old(m[..]), at, at + 2 * |name|)
  {
    for i := 0 to |name|
      invariant Chars(m[..], at, i) == name[..i]
      invariant OnlyIn(m[..], old(m[..]), at, at + 2 * |name|)
    {
      ghost var was := m[..];
      Put16(m, at + 2 * i, name[i]);
      CharsMore(was, m[..], at, name, i);
    }
  }

  lemma CharsMore(was: seq<byte>, s: seq<byte>, at: nat, name: seq<char16>, i: nat)
    requires i < |name| && at + 2 * i + 2 <= |s| && OnlyIn(s, was, at + 2 * i, at + 2 * i + 2)
    requires Chars(was, at, i) == name[..i] && Le16(s, at + 2 * i) == name[i]
    ensures Chars(s, at, i + 1) == name[..i + 1]
  {
    var now, before := Chars(s, at, i + 1), Chars(was, at, i);
    forall j | 0 <= j < i ensures now[j] == name[j] {
      assert before[j] == name[j];
    }
    assert now[i] == name[i];
  }

  /** The header of a resident attribute with this name and a value of this size. */
  function HeaderFor(kind: nat, nameLength: byte, size: nat, flags: nat, instance: nat): Header {
    var valueOffset := RESIDENT_END + Up8(2 * nameLength as int);
    Header(kind, valueOffset + Up8(size), nameLength, flags, instance, size, valueOffset)
  }

  /** c is a resident attribute of this header, name and value. */
  ghost predicate Carries(c: seq<byte>, h: Header, name: seq<char16>, value: seq<byte>) {
    && Attribute(c) && |c| == h.length && HasHeader(c, h) && NameOf(c) == name && ValueOf(c) == value
  }

  lemma CarriesIs(c: seq<byte>, kind: nat, size: nat, flags: nat, instance: nat, name: seq<char16>, value: seq<byte>)
    requires |name| < 256 && |value| == size
    requires var h := HeaderFor(kind, |name|, size, flags, instance);
             && Fits(h) && |c| == h.length && c[..RESIDENT_END - 1] == HeaderBytes(h)
             && c[h.valueOffset..h.valueOffset + size] == value
             && Chars(c, RESIDENT_END, |name|) == name
    ensures Carries(c, HeaderFor(kind, |name|, size, flags, instance), name, value)
  {
    hide HeaderBytes, Le32, Le16, Digit, Chars;
    HeaderIsRead(HeaderFor(kind, |name|, size, flags, instance), c);
  }

  lemma CharsInside(s: seq<byte>, a: nat, length: nat, at: nat, n: nat)
    requires a + length <= |s| && at + 2 * n <= length
    ensures Chars(s[a..a + length], at, n) == Chars(s, a + at, n)
  {
  }

  lemma SliceKept(s: seq<byte>, was: seq<byte>, at: nat, n: nat, from: nat, to: nat)
    requires OnlyIn(s, was, from, to) && at + n <= |s| && (at + n <= from || to <= at)
    ensures s[at..at + n] == was[at..at + n]
  {
    Shifted(s, was, at, at, n);
  }

  lemma SubSlice(s: seq<byte>, a: nat, length: nat, at: nat, n: nat)
    requires a + length <= |s| && at + n <= length
    ensures s[a..a + length][at..at + n] == s[a + at..a + at + n]
  {
    var c, d := s[a..a + length], s[a + at..a + at + n];
    forall i | 0 <= i < n ensures c[at..at + n][i] == d[i] {
      assert c[at..at + n][i] == c[at + i];
    }
  }

  /** Writes a resident attribute at offset a: its header, its value (zeros without one) and its name. */
  method PutAttribute(m: array<byte>, a: nat, kind: nat, name: seq<char16>, value: Option<seq<byte>>, size: nat,
                      flags: nat, instance: nat)
    requires |name| < 256 && (value.Some? ==> |value.value| == size)
    requires var h := HeaderFor(kind, |name|, size, flags, instance); Fits(h) && a + h.length <= m.Length
    modifies m
    ensures OnlyIn(m[..], old(m[..]), a, a + HeaderFor(kind, |name|, size, flags, instance).length)
    ensures var h := HeaderFor(kind, |name|, size, flags, instance);
            Carries(m[..][a..a + h.length], h, name, if value.Some? then value.value else Zeros(size))
  {
    hide *;
    var h := HeaderFor(kind, |name|, size, flags, instance);
    HeaderSizes(kind, |name|, size, flags, instance);
    var contents := if value.Some? then value.value else Zeros(size);
    ghost var start := m[..];
    CopyBytes(m, a, HeaderBytes(h));
    ghost var first := m[..];
    CopyBytes(m, a + h.valueOffset, contents);
    ghost var second := m[..];
    CopyName(m, a + RESIDENT_END, name);
    Written(start, first, second, m[..], a, kind, name, contents, flags, instance);
  }

  lemma HeaderSizes(kind: nat, nameLength: byte, size: nat, flags: nat, instance: nat)
    ensures RESIDENT_END == 24
    ensures var h := HeaderFor(kind, nameLength, size, flags, instance);
            && h.valueOffset >= RESIDENT_END + 2 * nameLength as int
            && h.length >= h.valueOffset + size && h.length % 8 == 0
            && h.valueOffset <= 536 && h.length <= h.valueOffset + size + 7
  {
  }

  /** The three writes together. */
  lemma Written(start: seq<byte>, first: seq<byte>, second: seq<byte>, s: seq<byte>, a: nat,
                kind: nat, name: seq<char16>, contents: seq<byte>, flags: nat, instance: nat)
    requires |name| < 256
    requires var h := HeaderFor(kind, |name|, |contents|, flags, instance);
             && Fits(h) && a + h.length <= |s| == |first| == |second|
             && h.valueOffset >= RESIDENT_END + 2 * |name| && h.length >= h.valueOffset + |contents|
             && OnlyIn(first, start, a, a + RESIDENT_END - 1)
             && Reads(first, a, HeaderBytes(h))
             && OnlyIn(second, first, a + h.valueOffset, a + h.valueOffset + |contents|)
             && Reads(second, a + h.valueOffset, contents)
             && OnlyIn(s, second, a + RESIDENT_END, a + RESIDENT_END + 2 * |name|)
             && Chars(s, a + RESIDENT_END, |name|) == name
    ensures var h := HeaderFor(kind, |name|, |contents|, flags, instance);
            OnlyIn(s, start, a, a + h.length) && Carries(s[a..a + h.length], h, name, contents)
  {
    hide HeaderBytes, Chars, Up8, Carries, Fits, HeaderFor;
    var size := |contents|;
    var h := HeaderFor(kind, |name|, size, flags, instance);
    var v := a + h.valueOffset;
    OnlyInThree(start, first, second, s, a, h.length, h.valueOffset, size, |name|);
    hide OnlyIn;
    SliceKept(second, first, a, RESIDENT_END - 1, v, v + size);
    SliceKept(s, second, a, RESIDENT_END - 1, a + RESIDENT_END, a + RESIDENT_END + 2 * |name|);
    SliceKept(s, second, v, size, a + RESIDENT_END, a + RESIDENT_END + 2 * |name|);
    SubSlice(s, a, h.length, 0, RESIDENT_END - 1);
    SubSlice(s, a, h.length, h.valueOffset, size);
    CharsInside(s, a, h.length, RESIDENT_END, |name|);
    CarriesIs(s[a..a + h.length], kind, size, flags, instance, name, contents);
  }

  lemma OnlyInThree(start: seq<byte>, first: seq<byte>, second: seq<byte>, s: seq<byte>, a: nat, length: nat,
                    valueOffset: nat, size: nat, n: nat)
    requires OnlyIn(first, start, a, a + RESIDENT_END - 1)
    requires OnlyIn(second, first, a + valueOffset, a + valueOffset + size)
    requires OnlyIn(s, second, a + RESIDENT_END, a + RESIDENT_END + 2 * n)
    requires RESIDENT_END + 2 * n <= valueOffset && valueOffset + size <= length
    ensures OnlyIn(s, start, a, a + length)
  {
  }
}
