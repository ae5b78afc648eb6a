/** The imperative LZNT1 decompressor, proved equal to the functional decoder on every input.
  *
  * It may store one byte behind the room it is given and read one behind the stream. Those bytes need only
  * exist when the decoder of the format says so, which is also when they are used. */
module Lznt1Decompress {
  import opened Bytes
  import opened Lznt1Format

  /** Copy `len` bytes from `back` places before d: first what does not overlap, then byte by byte. */
  method CopyPhrase(dest: array<byte>, ghost start: nat, d: nat, back: nat, len: nat)
    requires start <= d && 1 <= back <= d - start && d + len <= dest.Length
    modifies dest
    ensures dest[start..d + len] == CopyBack(old(dest[start..d]), back, len)
    ensures forall k :: 0 <= k < dest.Length && !(d <= k < d + len) ==> dest[k] == old(dest[k])
  {
    hide CopyBack;
    var maxNonOverlap := back;
    if len <= maxNonOverlap {
      forall k | d <= k < d + len {
        dest[k] := dest[k - back];
      }
    } else {
      forall k | d <= k < d + maxNonOverlap {
        dest[k] := dest[k - back];
      }
      var to := d + maxNonOverlap;
      while to < d + len
        invariant d + maxNonOverlap <= to <= d + len
        invariant forall k :: d <= k < to ==> dest[k] == dest[k - back]
        invariant forall k :: 0 <= k < dest.Length && !(d <= k < to) ==> dest[k] == old(dest[k])
      {
        dest[to] := dest[to - back];
        to := to + 1;
      }
    }
    ghost var out, r := old(dest[start..d]), dest[start..d + len];
    assert forall t :: 0 <= t < |r| ==> r[t] == dest[start + t];
    assert forall t :: 0 <= t < |out| ==> r[t] == out[t];
    assert r[..|out|] == out;
    CopyBackUnique(out, back, len, r) by {
      forall t | |out| <= t < |r| ensures r[t] == r[t - back] {
        assert dest[start + t] == dest[start + t - back];
      }
    }
  }

  /** The number of extra distance bits at position p, by repeated shifting. */
  method LgAt(p: nat) returns (lg: nat)
    requires 1 <= p
    ensures lg == Lg(p - 1)
  {
    lg := 0;
    var i := p - 1;
    while i >= 0x10
      invariant i >= 0 && lg + Lg(i) == Lg(p - 1)
    {
      i := i / 2;
      lg := lg + 1;
    }
  }

  /** Read one phrase token with code pt at position d; false when it does not fit the sub-block. */
  method ReadPhrase(dest: array<byte>, start: nat, d: nat, pt: nat) returns (ok: bool, d': nat)
    requires start < d <= start + SB_SIZE <= dest.Length
    modifies dest
    ensures ok <==> PhraseBack(pt, d - start) <= d - start && d - start + PhraseLen(pt, d - start) <= SB_SIZE
    ensures ok ==> d' == d + PhraseLen(pt, d - start) && d <= d' <= start + SB_SIZE
    ensures ok ==> dest[start..d'] == CopyBack(old(dest[start..d]), PhraseBack(pt, d - start), PhraseLen(pt, d - start))
    ensures forall k :: 0 <= k < dest.Length && !(d <= k < start + SB_SIZE) ==> dest[k] == old(dest[k])
  {
    hide PhraseBack, PhraseLen, Pow2;
    var lg := LgAt(d - start);
    PhraseParts(pt, d - start, lg);
    var back, length := pt / Pow2(12 - lg) + 1, pt % Pow2(12 - lg) + 3;
    if back > d - start || d + length > start + SB_SIZE {
      return false, d;
    }
    CopyPhrase(dest, start, d, back, length);
    return true, d + length;
  }

  lemma PhraseParts(pt: nat, p: nat, lg: nat)
    requires 1 <= p <= SB_SIZE && lg == Lg(p - 1)
    ensures lg <= 8 && PhraseBack(pt, p) == pt / Pow2(12 - lg) + 1 && PhraseLen(pt, p) == pt % Pow2(12 - lg) + 3
  {
    hide Pow2;
    assert LengthBits(p) == 12 - lg;
  }

  /** What is still to be expected at the tokens src, when the sub-block has these bytes so far. */
  ghost predicate Expected(all: Reading, src: seq<byte>, tag: nat, left: nat, bytes: seq<byte>) {
    && all.out == Tokens(src, tag, left, bytes)
    && all.peeks == Pending(src, tag, left, bytes)
    && all.past == if |bytes| > SB_SIZE then Some(bytes[SB_SIZE]) else Past(src, tag, left, bytes)
  }

  /** Nothing more comes of the sub-block. */
  ghost predicate Failed(all: Reading, peeked: bool) {
    all == Reading(None, None, peeked)
  }

  /** The memory that decoding the tokens needs behind the sub-block and behind the tokens. */
  ghost predicate Provided(all: Reading, destLength: nat, sbEnd: nat, memory: nat, end: nat) {
    && sbEnd <= destLength && end <= memory
    && (all.past.Some? ==> sbEnd < destLength) && (all.peeks ==> end < memory)
  }

  /** Parse one token, and tell whether the byte behind the tokens was read. The next token may seem to begin
    * one behind the end. */
  method ReadToken(dest: array<byte>, start: nat, mem: seq<byte>, c0: nat, end: nat, tag: nat, d0: nat,
                   ghost left: nat, ghost all: Reading)
    returns (ok: bool, c: nat, d: nat, ghost peeked: bool)
    requires Provided(all, dest.Length, start + SB_SIZE, |mem|, end)
    requires c0 < end && start <= d0 <= start + SB_SIZE && left > 0
    requires Expected(all, mem[c0..end], tag, left, dest[start..d0])
    modifies dest
    ensures !ok || c > end ==> d <= start + SB_SIZE && Failed(all, peeked)
    ensures ok && c <= end ==>
              && !peeked && c0 < c && start <= d <= dest.Length && d <= start + SB_SIZE + 1
              && Expected(all, mem[c..end], tag / 2, left - 1, dest[start..d])
    ensures Untouched(dest[..], old(dest[..]), start, d)
  {
    hide PhraseBack, PhraseLen, CopyBack, Pow2;
    c, d, peeked := c0, d0, false;
    ghost var before, src := dest[start..d], mem[c0..end];
    if tag % 2 == 0 {
      dest[d] := mem[c];
      assert dest[start..d + 1] == before + [src[0]];
      assert src[1..] == mem[c + 1..end];
      return true, c + 1, d + 1, false;
    }
    if d == start {
      return false, c, d, false;
    }
    peeked := c + 1 == end;
    var pt := Le16(mem, c);
    assert |src| >= 2 ==> Le16(src, 0) == pt;
    var fits, d' := ReadPhrase(dest, start, d, pt);
    if !fits {
      return false, c, d, peeked;
    }
    assert c + 2 <= end ==> src[2..] == mem[c + 2..end];
    return true, c + 2, d', peeked;
  }

  /** Outside the sub-block from start on, and what was stored of it up to d, nothing changes. */
  ghost predicate Untouched(dest: seq<byte>, was: seq<byte>, start: nat, d: nat) {
    && |dest| == |was|
    && forall k :: 0 <= k < |dest| && !(start <= k < start + SB_SIZE) && !(start <= k < d) ==> dest[k] == was[k]
  }

  /** Parse up to eight tokens described by a tag. */
  method ReadTokens(dest: array<byte>, start: nat, mem: seq<byte>, c0: nat, end: nat, tag0: nat, d0: nat,
                    ghost all: Reading)
    returns (ok: bool, c: nat, d: nat, ghost peeked: bool)
    requires Provided(all, dest.Length, start + SB_SIZE, |mem|, end)
    requires c0 <= end && start <= d0 <= start + SB_SIZE
    requires Expected(all, mem[c0..end], tag0, 8, dest[start..d0])
    modifies dest
    ensures !ok || c > end ==> d <= start + SB_SIZE && Failed(all, peeked)
    ensures ok && c <= end ==>
              && !peeked && c0 <= c && start <= d <= dest.Length && d <= start + SB_SIZE + 1
              && Expected(all, mem[c..end], 0, 0, dest[start..d])
    ensures Untouched(dest[..], old(dest[..]), start, d)
  {
    hide Tokens, Past, Pending;
    c, d, peeked := c0, d0, false;
    var token, tag := 0, tag0;
    while token < 8 && c < end && d <= start + SB_SIZE
      invariant token <= 8
      invariant c > end ==> d <= start + SB_SIZE && Failed(all, peeked)
      invariant c <= end ==>
                  && !peeked && c0 <= c && start <= d <= dest.Length && d <= start + SB_SIZE + 1
                  && Expected(all, mem[c..end], tag, 8 - token, dest[start..d])
      invariant Untouched(dest[..], old(dest[..]), start, d)
      decreases 8 - token
    {
      ok, c, d, peeked := ReadToken(dest, start, mem, c, end, tag, d, 8 - token, all);
      if !ok {
        return;
      }
      tag := tag / 2;
      token := token + 1;
    }
    if c <= end {
      GroupEnds(mem[c..end], tag, 8 - token, dest[start..d]);
    }
    ok := true;
  }

  /** When the loop over a tag's tokens stops, the rest of the tag does not matter. */
  lemma GroupEnds(src: seq<byte>, tag: nat, left: nat, out: seq<byte>)
    requires left == 0 || src == [] || |out| > SB_SIZE
    ensures Tokens(src, tag, left, out) == Tokens(src, 0, 0, out)
    ensures Past(src, tag, left, out) == Past(src, 0, 0, out)
    ensures Pending(src, tag, left, out) == Pending(src, 0, 0, out)
  {
    hide PhraseBack, PhraseLen, CopyBack;
  }

  /** Decode the tokens mem[c0..end] of a compressed sub-block into dest[start..], zero-filled. A literal that
    * follows when the sub-block is full is stored behind it. */
  method DecodeSubBlock(dest: array<byte>, start: nat, mem: seq<byte>, c0: nat, end: nat)
    returns (ok: bool, d: nat, ghost peeked: bool)
    requires c0 <= end <= |mem|
    requires Provided(TokensReading(mem[..end], c0), dest.Length, start + SB_SIZE, |mem|, end)
    modifies dest
    ensures var all := TokensReading(mem[..end], c0);
            && (ok <==> all.out.Some?) && (peeked <==> all.peeks)
            && (ok ==> start <= d <= dest.Length && dest[start..d] == Pad(all.out.value))
            && (all.past.Some? ==> dest[start + SB_SIZE] == all.past.value)
            && Untouched(dest[..], old(dest[..]), start, if all.past.Some? then start + SB_SIZE + 1 else start)
  {
    hide PhraseBack, PhraseLen;
    ghost var all := TokensReading(mem[..end], c0);
    var c := c0;
    d, peeked := start, false;
    assert mem[..end][c0..] == mem[c0..end];
    while c != end
      invariant c0 <= c <= end && start <= d <= dest.Length && d <= start + SB_SIZE + 1
      invariant !peeked && Expected(all, mem[c..end], 0, 0, dest[start..d])
      invariant Untouched(dest[..], old(dest[..]), start, d)
      decreases end - c
    {
      if d > start + SB_SIZE {
        assert dest[start..d][SB_SIZE] == dest[start + SB_SIZE];
        return false, d, false;
      }
      var tag := mem[c];
      assert mem[c..end][1..] == mem[c + 1..end];
      c := c + 1;
      ok, c, d, peeked := ReadTokens(dest, start, mem, c, end, tag, d, all);
      if !ok || c > end {
        return false, d, peeked;
      }
    }
    ghost var got := dest[start..d];
    assert d > start + SB_SIZE ==> got[SB_SIZE] == dest[start + SB_SIZE];
    if d < start + SB_SIZE {
      forall k | d <= k < start + SB_SIZE {
        dest[k] := 0;
      }
      d := start + SB_SIZE;
    }
    assert dest[start..d] == Pad(got);
    ok := true;
  }

  /** What decoding the tokens behind the first c0 bytes comes to. */
  ghost function TokensReading(src: seq<byte>, c0: nat): Reading
    requires c0 <= |src|
  {
    Reading(Tokens(src[c0..], 0, 0, []), Past(src[c0..], 0, 0, []), Pending(src[c0..], 0, 0, []))
  }

  // ----- streams -----

  /** What a sub-block at the beginning of a stream comes to. */
  lemma FirstSubBlock(src: seq<byte>, behind: byte, room: int)
    requires room >= -1 && Opens(src, room) && Le16(src, 0) >= SB_IS_COMPRESSED
    ensures var n := SubBlockSize(src);
            var tokens, all := TokensReading(src[..n], 2), Stream(src, behind, room);
            && all.out == (match tokens.out
                           case None => None
                           case Some(out) => Prepend(Pad(out), Stream(src[n..], behind, room - |Pad(out)|)).out)
            && (tokens.out.Some? ==>
                  var p := Pad(tokens.out.value);
                  && |p| <= SB_SIZE + 1 && !tokens.peeks
                  && tokens.past == if |p| > SB_SIZE then Some(p[SB_SIZE]) else None)
            && all.past == (if room == SB_SIZE && tokens.past.Some? then tokens.past
                            else if tokens.out.None? then None
                            else Stream(src[n..], behind, room - |Pad(tokens.out.value)|).past)
            && (all.peeks <==> (n == |src| && tokens.peeks)
                               || (tokens.out.Some? && Stream(src[n..], behind, room - |Pad(tokens.out.value)|).peeks))
  {
    hide Tokens, Past, Pending, Pad;
    var b := src[..SubBlockSize(src)];
    assert Le16(b, 0) == Le16(src, 0);
    if Tokens(b[2..], 0, 0, []).Some? {
      DecodedInside(b[2..], 0, 0, []);
      PastIsLast(b[2..], 0, 0, []);
      var out := Tokens(b[2..], 0, 0, []).value;
      assert SubBlock(b) == Some(Pad(out));
      PadLength(out);
    }
  }

  lemma PadLength(out: seq<byte>)
    ensures |out| <= SB_SIZE ==> |Pad(out)| == SB_SIZE
    ensures |out| > SB_SIZE ==> Pad(out) == out
  {
  }

  lemma PlainSubBlock(src: seq<byte>, behind: byte, room: int)
    requires room >= -1 && Opens(src, room) && Le16(src, 0) < SB_IS_COMPRESSED
    ensures var n, all := SubBlockSize(src), Stream(src, behind, room);
            if n == SB_SIZE + 2 then all == Prepend(src[2..n], Stream(src[n..], behind, room - SB_SIZE))
            else all == Reading(None, None, false)
  {
    var b := src[..SubBlockSize(src)];
    assert Le16(b, 0) == Le16(src, 0);
    assert b[2..] == src[2..|b|];
  }

  /** Decoding has come so far: these bytes are done, src is still to be decoded. */
  ghost predicate Going(all: Reading, src: seq<byte>, behind: byte, bytes: seq<byte>, size: nat) {
    && |bytes| <= size + 1
    && var r := Stream(src, behind, size - |bytes|);
       && all.out == Prepend(bytes, r).out && all.peeks == r.peeks
       && all.past == if |bytes| > size then Some(bytes[size]) else r.past
  }

  /** The byte behind the room afterwards. */
  ghost predicate Behind(dest: seq<byte>, was: seq<byte>, size: nat, past: Option<byte>) {
    && |dest| == |was| && (forall k :: size < k < |dest| ==> dest[k] == was[k])
    && (size < |dest| ==> dest[size] == if past.Some? then past.value else was[size])
  }

  lemma PrependTwice(a: seq<byte>, b: seq<byte>, r: Reading)
    ensures Prepend(a, Prepend(b, r)) == Prepend(a + b, r)
  {
    if r.out.Some? {
      assert a + (b + r.out.value) == a + b + r.out.value;
    }
  }

  /** One sub-block further. */
  lemma GoingOn(all: Reading, src: seq<byte>, rest: seq<byte>, behind: byte, bytes: seq<byte>, p: seq<byte>, size: nat)
    requires Going(all, src, behind, bytes, size) && |bytes| + |p| <= size + 1
    requires |bytes| <= size
    requires var r, q := Stream(src, behind, size - |bytes|), Stream(rest, behind, size - |bytes| - |p|);
             && r.out == Prepend(p, q).out && r.peeks == q.peeks
             && r.past == if |bytes| + |p| > size then Some(p[size - |bytes|]) else q.past
    ensures Going(all, rest, behind, bytes + p, size)
  {
    hide Stream;
    var q := Stream(rest, behind, size - |bytes| - |p|);
    PrependTwice(bytes, p, q);
    assert |bytes| + |p| > size ==> (bytes + p)[size] == p[size - |bytes|];
  }

  lemma SubSlice(mem: seq<byte>, c: nat, cbSize: nat, i: nat, j: nat)
    requires c <= cbSize <= |mem| && i <= j <= cbSize - c
    ensures mem[c..cbSize][i..j] == mem[c + i..c + j]
  {
    var a, b := mem[c..cbSize][i..j], mem[c + i..c + j];
    forall k | 0 <= k < j - i ensures a[k] == b[k] {
      assert a[k] == mem[c..cbSize][i + k];
    }
  }

  lemma PayloadAt(mem: seq<byte>, c: nat, cbSize: nat, n: nat)
    requires c <= cbSize <= |mem| && 2 <= n <= cbSize - c
    ensures mem[c..cbSize][..n][2..] == mem[..c + n][c + 2..]
  {
    SubSlice(mem, c, cbSize, 2, n);
    assert mem[c..cbSize][..n][2..] == mem[c..cbSize][2..n];
    assert mem[..c + n][c + 2..] == mem[c + 2..c + n];
  }

  /** Copy an uncompressed sub-block. */
  method CopyPlain(dest: array<byte>, d: nat, mem: seq<byte>, c: nat)
    requires d + SB_SIZE <= dest.Length && c + SB_SIZE <= |mem|
    modifies dest
    ensures dest[d..d + SB_SIZE] == mem[c..c + SB_SIZE]
    ensures Untouched(dest[..], old(dest[..]), d, d)
  {
    for i := 0 to SB_SIZE
      invariant dest[d..d + i] == mem[c..c + i]
      invariant Untouched(dest[..], old(dest[..]), d, d)
    {
      dest[d + i] := mem[c + i];
      assert dest[d..d + i + 1] == dest[d..d + i] + [mem[c + i]];
    }
  }

  lemma GoingFails(all: Reading, src: seq<byte>, behind: byte, bytes: seq<byte>, size: nat)
    requires Going(all, src, behind, bytes, size) && Stream(src, behind, size - |bytes|).out.None?
    ensures all.out.None? && all.peeks == Stream(src, behind, size - |bytes|).peeks
    ensures all.past == if |bytes| > size then Some(bytes[size]) else Stream(src, behind, size - |bytes|).past
  {
  }

  /** The memory for the whole is enough for the next sub-block. */
  lemma ProvidedHere(all: Reading, src: seq<byte>, behind: byte, bytes: seq<byte>, size: nat, destLength: nat,
                     memory: nat, cbSize: nat)
    requires Going(all, src, behind, bytes, size) && |bytes| <= size && Provided(all, destLength, size, memory, cbSize)
    requires |src| <= cbSize && Opens(src, size - |bytes|) && Le16(src, 0) >= SB_IS_COMPRESSED
    ensures Provided(TokensReading(src[..SubBlockSize(src)], 2), destLength, |bytes| + SB_SIZE, memory,
                     cbSize - |src| + SubBlockSize(src))
  {
    hide Stream;
    FirstSubBlock(src, behind, size - |bytes|);
  }

  /** Decode the compressed sub-block at mem[c..end] into dest[d0..]. */
  method NextCompressed(dest: array<byte>, d0: nat, destSize: nat, mem: seq<byte>, c: nat, end: nat, cbSize: nat,
                        ghost behind: byte, ghost all: Reading)
    returns (ok: bool, d: nat, ghost peeked: bool)
    requires Provided(all, dest.Length, destSize, |mem|, cbSize) && c + 2 <= end <= cbSize && d0 <= destSize
    requires var src := mem[c..cbSize];
             && Going(all, src, behind, dest[..d0], destSize) && Opens(src, destSize - d0)
             && Le16(src, 0) >= SB_IS_COMPRESSED && end == c + SubBlockSize(src)
    modifies dest
    ensures ok ==>
              && d0 < d <= destSize + 1 && d <= dest.Length
              && Going(all, mem[end..cbSize], behind, dest[..d], destSize)
              && forall k :: d <= k < dest.Length ==> dest[k] == old(dest[k])
    ensures !ok ==> all.out.None? && all.peeks == (peeked && end == cbSize)
    ensures !ok ==> Behind(dest[..], old(dest[..]), destSize, all.past)
  {
    hide Stream, Going, SubBlockSize, Pad;
    ghost var src, before := mem[c..cbSize], dest[..d0];
    ghost var n := end - c;
    ghost var tokens := TokensReading(src[..n], 2);
    FirstSubBlock(src, behind, destSize - d0);
    ProvidedHere(all, src, behind, before, destSize, dest.Length, |mem|, cbSize);
    PayloadAt(mem, c, cbSize, n);
    assert TokensReading(mem[..end], c + 2) == tokens;
    hide TokensReading;
    ok, d, peeked := DecodeSubBlock(dest, d0, mem, c + 2, end);
    if ok {
      assert dest[..d] == before + dest[d0..d];
      assert src[n..] == mem[end..cbSize];
      GoingOn(all, src, src[n..], behind, before, dest[d0..d], destSize);
    } else {
      GoingFails(all, src, behind, before, destSize);
    }
  }

  /** Decode the sub-block at mem[c0..] into dest[d0..]. */
  method NextSubBlock(dest: array<byte>, d0: nat, destSize: nat, mem: seq<byte>, c0: nat, cbSize: nat,
                      ghost behind: byte, ghost all: Reading)
    returns (ok: bool, c: nat, d: nat, ghost peeked: bool)
    requires c0 < cbSize && Provided(all, dest.Length, destSize, |mem|, cbSize) && c0 + 1 < |mem|
    requires Le16(mem, c0) != 0 && d0 <= destSize + 1 && d0 <= dest.Length && d0 != destSize
    requires Going(all, mem[c0..cbSize], behind, dest[..d0], destSize) && (cbSize < |mem| ==> mem[cbSize] == behind)
    modifies dest
    ensures ok ==>
              && !peeked && c0 < c <= cbSize && d0 < d <= destSize + 1 && d <= dest.Length
              && Going(all, mem[c..cbSize], behind, dest[..d], destSize)
              && forall k :: d <= k < dest.Length ==> dest[k] == old(dest[k])
    ensures !ok ==> all.out.None? && all.peeks == peeked
    ensures !ok ==>
              Behind(dest[..], old(dest[..]), destSize, if d0 > destSize then Some(old(dest[..])[destSize])
                     else all.past)
  {
    hide Stream, Going, SubBlockSize;
    ghost var src, before := mem[c0..cbSize], dest[..d0];
    c, d, peeked := c0, d0, c0 + 1 == cbSize;
    HeaderOf(src, behind, destSize - d0);
    if d + SB_SIZE > destSize || c + 6 > cbSize {
      GoingFails(all, src, behind, before, destSize);
      return false, c, d, peeked;
    }
    var header := Le16(mem, c);
    assert Le16(src, 0) == header;
    var end := c + header % SB_SIZE_MASK_PLUS_ONE + 3;
    SizeOf(src, header);
    if end > cbSize {
      GoingFails(all, src, behind, before, destSize);
      return false, c, d, peeked;
    }
    if header < SB_IS_COMPRESSED {
      PlainSubBlock(src, behind, destSize - d);
      // this sub-block is not compressed, it must be full size
      if end - (c + 2) != SB_SIZE {
        GoingFails(all, src, behind, before, destSize);
        return false, c, d, false;
      }
      CopyPlain(dest, d, mem, c + 2);
      d := d + SB_SIZE;
      SubSlice(mem, c, cbSize, 2, SB_SIZE + 2);
      assert dest[..d] == before + dest[d0..d];
      assert src[end - c..] == mem[end..cbSize];
      GoingOn(all, src, src[end - c..], behind, before, dest[d0..d], destSize);
    } else {
      ok, d, peeked := NextCompressed(dest, d, destSize, mem, c, end, cbSize, behind, all);
      if !ok {
        peeked := peeked && end == cbSize;
        return;
      }
    }
    return true, end, d, false;
  }

  lemma SizeOf(src: seq<byte>, header: nat)
    requires |src| >= 2 && Le16(src, 0) == header
    ensures SubBlockSize(src) == header % SB_SIZE_MASK_PLUS_ONE + 3
  {
  }

  /** When no further sub-block opens. */
  lemma HeaderOf(src: seq<byte>, behind: byte, room: int)
    requires room >= -1 && room != 0 && src != [] && !(|src| == 1 && src[0] == 0 == behind)
    requires |src| >= 2 ==> Le16(src, 0) != 0
    ensures room < SB_SIZE || |src| < 6 || SubBlockSize(src) > |src| ==>
              Stream(src, behind, room) == Reading(None, None, |src| == 1)
  {
  }

  /** Decompress the compression block mem[..cbSize] into dest[..destSize]. Returns 0 on success and -1 when
    * the stream is malformed. */
  method Decompress(dest: array<byte>, destSize: nat, mem: seq<byte>, cbSize: nat, ghost behind: byte)
    returns (res: int, ghost peeked: bool)
    requires cbSize <= |mem| && (cbSize < |mem| ==> behind == mem[cbSize])
    requires Provided(Stream(mem[..cbSize], behind, destSize), dest.Length, destSize, |mem|, cbSize)
    modifies dest
    ensures var all := Stream(mem[..cbSize], behind, destSize);
            && (res == if all.out.Some? then 0 else -1)
            && peeked == all.peeks
            && Behind(dest[..], old(dest[..]), destSize, all.past)
            && (res == 0 ==> |all.out.value| <= dest.Length && dest[..|all.out.value|] == all.out.value
                             && forall k :: |all.out.value| <= k < dest.Length ==> dest[k] == old(dest[k]))
  {
    ghost var all := Stream(mem[..cbSize], behind, destSize);
    var c: nat, d: nat := 0, 0;
    GoingStart(mem[..cbSize], behind, destSize);
    assert mem[0..cbSize] == mem[..cbSize] && dest[..0] == [];
    hide Stream, Opens;
    while true
      invariant c <= cbSize && d <= destSize + 1 && d <= dest.Length
      invariant Going(all, mem[c..cbSize], behind, dest[..d], destSize)
      invariant forall k :: d <= k < dest.Length ==> dest[k] == old(dest[k])
      decreases cbSize - c
    {
      ghost var src := mem[c..cbSize];
      GoingEnd(src, behind, destSize - d);
      if c == cbSize {
        peeked := false;
        break;
      }
      peeked := c + 1 == cbSize;
      if Le16(mem, c) == 0 || d == destSize {
        break;
      }
      ghost var d0 := d;
      var ok;
      ok, c, d, peeked := NextSubBlock(dest, d, destSize, mem, c, cbSize, behind, all);
      if !ok {
        return -1, peeked;
      }
    }
    assert dest[..d] + [] == dest[..d];
    return 0, peeked;
  }

  lemma GoingStart(src: seq<byte>, behind: byte, size: nat)
    ensures Going(Stream(src, behind, size), src, behind, [], size)
  {
    hide Stream;
    var r := Stream(src, behind, size);
    if r.out.Some? {
      assert [] + r.out.value == r.out.value;
    }
  }

  /** Where decoding ends. */
  lemma GoingEnd(src: seq<byte>, behind: byte, room: int)
    requires room >= -1
    ensures src == [] ==> Stream(src, behind, room) == Reading(Some([]), None, false)
    ensures |src| == 1 ==> Stream(src, behind, room).peeks
    ensures |src| == 1 && (src[0] == 0 == behind || room == 0) ==>
            Stream(src, behind, room) == Reading(Some([]), None, true)
    ensures |src| >= 2 && (Le16(src, 0) == 0 || room == 0) ==>
            Stream(src, behind, room) == Reading(Some([]), None, false)
  {
  }
}
