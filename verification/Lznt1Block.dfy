/** Compression of one block of up to 4096 bytes into an LZNT1 sub-block, with lazy matching. */
module Lznt1Block {
  import opened Bytes
  import opened Lznt1Format
  import opened Lznt1Tokens
  import opened Lznt1Compress

  /** What has been written after the header: closed groups, the place reserved for the current
    * group's tag, and the current group's payload. */
  ghost predicate Emitted(buf: seq<byte>, done: seq<byte>, ts: seq<Token>, text: seq<byte>, p: nat, i: nat) {
    && |text| <= SB_SIZE && p <= |text| && |ts| <= 8
    && Covers(ts, text, p, i) && DecodesUpTo(done, text, p)
    && |done| < |buf| && buf[..|done|] == done
    && buf[|done| + 1..] == Payload(ts, text, p, i)
  }

  lemma EmitToken(buf: seq<byte>, done: seq<byte>, ts: seq<Token>, text: seq<byte>, p: nat, i: nat, t: Token,
                  buf': seq<byte>)
    requires Emitted(buf, done, ts, text, p, i) && |ts| < 8 && Codes(t, text, i)
    requires buf' == buf + TokenBytes(t, text, i)
    ensures Emitted(buf', done, ts + [t], text, p, i + t.Length())
    ensures Tag(ts + [t]) == Tag(ts) + t.TypeBit() * Pow2(|ts|)
  {
    hide Covers, Payload, Tag, Codes, TokenBytes, Tokens;
    AppendToken(ts, t, text, p, i);
    assert buf'[..|done|] == buf[..|done|];
    assert buf'[|done| + 1..] == buf[|done| + 1..] + TokenBytes(t, text, i);
  }

  lemma TagIsByte(ts: seq<Token>)
    requires |ts| <= 8
    ensures Tag(ts) < 256
  {
    Pow2Monotone(|ts|, 8);
  }

  /** Storing the tag of a full group and reserving the next tag's place. */
  lemma StoreTag(buf: seq<byte>, done: seq<byte>, ts: seq<Token>, text: seq<byte>, p: nat, i: nat, buf': seq<byte>)
    requires Emitted(buf, done, ts, text, p, i) && |ts| == 8
    requires Tag(ts) < 256 && |buf'| == |buf| + 1 && buf'[..|buf|] == buf[|done| := Tag(ts)]
    ensures Emitted(buf', buf'[..|buf|], [], text, i, i)
  {
    hide Tag, Tokens;
    CloseGroup(done, ts, text, p, i);
    assert buf'[..|buf|] == done + [Tag(ts)] + Payload(ts, text, p, i);
  }

  /** Storing the last tag, or giving back its place, leaves a payload that decodes to the text. */
  lemma Finish(buf: seq<byte>, done: seq<byte>, ts: seq<Token>, text: seq<byte>, p: nat, i: nat, buf': seq<byte>)
    requires Emitted(buf, done, ts, text, p, i)
    requires Tag(ts) < 256
    requires buf' == if ts == [] then buf[..|buf| - 1] else buf[|done| := Tag(ts)]
    ensures i <= |text| && Tokens(buf', 0, 0, []) == Some(text[..i])
  {
    hide Tag, Tokens;
    if ts == [] {
      assert buf' == done;
      CloseEmpty(done, text, i);
    } else {
      CloseLastGroup(done, ts, text, p, i);
      assert buf' == done + [Tag(ts)] + Payload(ts, text, p, i);
    }
  }

  /** bp distance bits are the fewest (at least 4) that reach back from position i. */
  ghost predicate SplitAt(bp: nat, i: nat) {
    4 <= bp <= 12 && i <= Pow2(bp) && (bp == 4 || Pow2(bp - 1) < i)
  }

  /** The compressor's split of the 16 bits is the decoder's. */
  lemma SplitAgrees(bp: nat, i: nat)
    requires SplitAt(bp, i) && 1 <= i <= SB_SIZE
    ensures LengthBits(i) == 16 - bp
  {
    Pow2Values();
    hide Pow2, Lg;
    var lg := Lg(i - 1);
    Pow2Sum(4, lg);
    Pow2Sum(3, lg);
    if bp < 4 + lg {
      Pow2Monotone(bp, 3 + lg);
    } else if bp > 4 + lg {
      Pow2Monotone(4 + lg, bp - 1);
    }
  }

  /** What the compression-set layer takes for a block of zeroes: one or two literal zeroes, or a
    * literal zero and a phrase. */
  predicate ZeroMarker(b: seq<byte>) {
    if |b| == 4 then b == [0x01, 0xb0, 0x00, 0x00]
    else if |b| == 5 then b == [0x02, 0xb0, 0x00, 0x00, 0x00]
    else if |b| == 6 then b[..4] == [0x03, 0xb0, 0x02, 0x00]
    else false
  }

  /** The match finder holds a match at position i that the current split can code. */
  ghost predicate FoundAt(ctx: CompressContext, i: nat)
    reads ctx
  {
    && ctx.rel < 0 && 3 <= ctx.size <= ctx.mxsz
    && MatchAt(ctx.inbuf, i, -ctx.rel, ctx.size)
  }

  /** The loop state between two tokens: chains complete up to position i (and i itself when a match
    * was already looked for there), and a split that does not reach further than needed. */
  ghost predicate Ready(ctx: CompressContext, i: nat, bp: nat, mxoff: nat, haveMatch: bool)
    reads ctx, ctx.head, ctx.prev
  {
    && i <= ctx.bufsize && ctx.Chains(if haveMatch then i + 1 else i)
    && 4 <= bp <= 12 && mxoff == Pow2(bp) && ctx.mxsz == Pow2(16 - bp) + 2
    && (bp == 4 || Pow2(bp - 1) < i)
    && (haveMatch ==> i < ctx.bufsize && i <= mxoff && FoundAt(ctx, i))
  }

  /** What is known early on: very short texts never match, and a text of zeroes is one literal
    * followed by one phrase. */
  ghost predicate ZeroReady(ctx: CompressContext, i: nat, haveMatch: bool)
    requires ctx.head.Length == HASH_SIZE
    reads ctx, ctx.head
  {
    && (i == 0 ==> forall h :: 0 <= h < HASH_SIZE ==> ctx.head[h] == -1)
    && (i == 0 || ctx.bufsize <= 4 ==> !haveMatch)
    && (AllZero(ctx.inbuf) && ctx.bufsize >= 5 ==>
          i == 0 || i == ctx.bufsize || (i == 1 && !haveMatch && ctx.head[Hash(0, 0, 0)] == 0))
  }

  ghost predicate ZeroToken(text: seq<byte>, i: nat, t: Token) {
    && (|text| <= 4 ==> t.Literal?)
    && (AllZero(text) && |text| >= 5 ==> t == if i == 0 then Literal(0) else Phrase(1, |text| - 1))
  }

  /** Raise the number of distance bits until position i can be reached back from. */
  method FitSplit(ctx: CompressContext, i: nat, bp0: nat, mxoff0: nat) returns (bp: nat, mxoff: nat)
    requires i < SB_SIZE && 4 <= bp0 <= 12 && mxoff0 == Pow2(bp0) && ctx.mxsz == Pow2(16 - bp0) + 2
    requires bp0 == 4 || Pow2(bp0 - 1) < i
    modifies ctx`mxsz
    ensures SplitAt(bp, i) && mxoff == Pow2(bp) && ctx.mxsz == Pow2(16 - bp) + 2 && bp >= bp0
    ensures i <= mxoff0 ==> bp == bp0
    ensures ctx.mxsz >= 18
  {
    hide Pow2;
    bp, mxoff := bp0, mxoff0;
    while mxoff < i
      invariant bp0 <= bp <= 12 && mxoff == Pow2(bp) && ctx.mxsz == Pow2(16 - bp) + 2
      invariant bp == 4 || Pow2(bp - 1) < i
      invariant i <= mxoff0 ==> bp == bp0
      decreases i - mxoff
    {
      Pow2Steps(bp);
      bp := bp + 1;
      mxoff := mxoff * 2;
      ctx.mxsz := (ctx.mxsz + 2) / 2;
    }
    Pow2Monotone(4, 16 - bp);
    Pow2Values();
  }

  /** Write the 16-bit code of the match of `len` bytes at offset offs < 0. */
  method PutPhrase(text: seq<byte>, outbuf: array<byte>, at: nat, ghost i: nat, offs: int, bp: nat, len: nat)
    requires |text| <= SB_SIZE && at + 2 <= outbuf.Length
    requires offs < 0 && MatchAt(text, i, -offs, len) && SplitAt(bp, i) && 3 <= len <= Pow2(16 - bp) + 2
    modifies outbuf
    ensures Codes(Phrase(-offs, len), text, i)
    ensures outbuf[at..at + 2] == TokenBytes(Phrase(-offs, len), text, i)
    ensures forall k :: 0 <= k < outbuf.Length && k != at && k != at + 1 ==> outbuf[k] == old(outbuf[k])
  {
    hide Pow2, PhraseCode, Packed;
    var q := Packed(-offs - 1, Pow2(16 - bp), len - 3);
    CodeFits(text, i, -offs, bp, len);
    outbuf[at] := q % 256;
    outbuf[at + 1] := q / 256 % 256;
  }

  lemma CodeFits(text: seq<byte>, i: nat, back: nat, bp: nat, len: nat)
    requires |text| <= SB_SIZE && MatchAt(text, i, back, len)
    requires SplitAt(bp, i) && 3 <= len <= Pow2(16 - bp) + 2
    ensures Codes(Phrase(back, len), text, i)
    ensures PhraseCode(back, len, i) == Packed(back - 1, Pow2(16 - bp), len - 3) < 65536
  {
    SplitAgrees(bp, i);
    hide Pow2;
    PackedBound(back - 1, len - 3, Pow2(bp), Pow2(16 - bp));
    Pow2Sum(bp, 16 - bp);
    Pow2Values();
  }

  lemma Pow2Values()
    ensures Pow2(3) == 8 && Pow2(4) == 16 && Pow2(12) == 4096 && Pow2(16) == 65536
  {
    Pow2Sum(4, 4);
    Pow2Sum(8, 4);
    Pow2Sum(12, 4);
  }

  lemma Pow2Steps(bp: nat)
    requires 4 <= bp <= 12
    ensures Pow2(bp + 1) == 2 * Pow2(bp)
    ensures Pow2(16 - bp) == 2 * Pow2(16 - (bp + 1))
    ensures bp == 12 ==> Pow2(bp) == 4096
  {
    Pow2Values();
  }

  lemma PackedBound(high: nat, low: nat, a: nat, m: nat)
    requires high < a && low < m
    ensures 0 <= high * m + low < a * m
  {
    assert a * m == high * m + m + (a - high - 1) * m;
  }

  /** Pass the positions from..to through the match finder. */
  method SkipTo(ctx: CompressContext, from: nat, to: nat)
    requires ctx.Chains(from) && from <= to
    modifies ctx.head, ctx.prev, ctx`inserted
    ensures ctx.Chains(to)
  {
    var i := from;
    while i < to
      invariant from <= i <= to
      invariant ctx.Chains(i)
    {
      ctx.SkipPosition(i);
      i := i + 1;
    }
  }

  /** A match has been looked for at position i, with the split that position i needs. */
  ghost predicate Looked(ctx: CompressContext, i: nat, bp: nat, mxoff: nat)
    reads ctx, ctx.head, ctx.prev
  {
    && i < ctx.bufsize && ctx.Chains(i + 1) && SplitAt(bp, i)
    && mxoff == Pow2(bp) && ctx.mxsz == Pow2(16 - bp) + 2
    && (ctx.size >= 3 ==> FoundAt(ctx, i))
  }

  ghost predicate ZeroLooked(ctx: CompressContext, i: nat)
    requires ctx.head.Length == HASH_SIZE
    reads ctx, ctx.head
  {
    && (ctx.bufsize <= 4 ==> ctx.size < 3)
    && (AllZero(ctx.inbuf) && ctx.bufsize >= 5 ==>
          if i == 0 then ctx.size < 3 && ctx.head[Hash(0, 0, 0)] == 0
          else i == 1 && ctx.size == ctx.bufsize - 1 && ctx.rel == -1)
  }

  /** Find the longest match at position i, unless that was done already. */
  method Look(ctx: CompressContext, i: nat, bp0: nat, mxoff0: nat, have0: bool) returns (bp: nat, mxoff: nat)
    requires Ready(ctx, i, bp0, mxoff0, have0) && i < ctx.bufsize
    modifies ctx, ctx.head, ctx.prev
    ensures Looked(ctx, i, bp, mxoff)
    ensures have0 ==> ctx.size >= 3
    ensures old(ZeroReady(ctx, i, have0)) ==> ZeroLooked(ctx, i)
  {
    hide Pow2, Hash;
    bp, mxoff := bp0, mxoff0;
    if !have0 {
      bp, mxoff := FitSplit(ctx, i, bp, mxoff);
      if i == 1 {
        Pow2AtLeastOne(bp);
      }
      ctx.BestMatch(i, 2);
    }
  }

  lemma Pow2AtLeastOne(bp: nat)
    ensures SplitAt(bp, 1) ==> bp == 4 && Pow2(16 - bp) == 4096
  {
    Pow2Values();
  }

  /** Code a match that is shorter than NICE_MATCH_LEN: unless the next position has a longer one, in
    * which case a literal goes out first. */
  method CodeLazily(ctx: CompressContext, outbuf: array<byte>, at: nat, i: nat, bp0: nat, mxoff0: nat)
    returns (next: nat, bp: nat, mxoff: nat, haveMatch: bool, xout: nat, bit: nat, ghost t: Token)
    requires Looked(ctx, i, bp0, mxoff0) && ctx.size >= 3 && at + 2 <= outbuf.Length
    modifies outbuf, ctx, ctx.head, ctx.prev
    ensures Ready(ctx, next, bp, mxoff, haveMatch)
    ensures Codes(t, ctx.inbuf, i) && next == i + t.Length() && bit == t.TypeBit()
    ensures xout == at + |TokenBytes(t, ctx.inbuf, i)| <= outbuf.Length
    ensures i < next && at < xout <= at + 2 && outbuf[at..xout] == TokenBytes(t, ctx.inbuf, i)
    ensures forall k :: 0 <= k < outbuf.Length && !(at <= k < xout) ==> outbuf[k] == old(outbuf[k])
    ensures old(ctx.size) == ctx.bufsize - i ==> t == Phrase(old(-ctx.rel), old(ctx.size)) && !haveMatch
  {
    hide Pow2, Hash, PhraseCode;
    var j, offs := i + ctx.size, ctx.rel;
    bp, mxoff := FitSplit(ctx, i + 1, bp0, mxoff0);
    ctx.BestMatch(i + 1, ctx.size);
    if i + 1 + ctx.size > j + 1 {
      // the next match is longer: output a literal
      outbuf[at] := ctx.inbuf[i];
      t, bit := Literal(ctx.inbuf[i]), 0;
      xout, next, haveMatch := at + 1, i + 1, true;
    } else {
      PutPhrase(ctx.inbuf, outbuf, at, i, offs, bp0, j - i);
      t, bit := Phrase(-offs, j - i), 1;
      SkipTo(ctx, i + 2, j);
      xout, next, haveMatch := at + 2, j, false;
    }
  }

  /** Code position i as a literal or as a phrase and write the token at outbuf[at..]. `bit` is the
    * token's type bit; `atEnd` tells that a long match reached the end of the block. */
  method CodePosition(ctx: CompressContext, outbuf: array<byte>, at: nat, i: nat, bp0: nat, mxoff0: nat, have0: bool)
    returns (next: nat, bp: nat, mxoff: nat, haveMatch: bool, xout: nat, bit: nat, atEnd: bool, ghost t: Token)
    requires Ready(ctx, i, bp0, mxoff0, have0) && i < ctx.bufsize && at + 2 <= outbuf.Length
    modifies outbuf, ctx, ctx.head, ctx.prev
    ensures Ready(ctx, next, bp, mxoff, haveMatch)
    ensures Codes(t, ctx.inbuf, i) && next == i + t.Length() && bit == t.TypeBit()
    ensures xout == at + |TokenBytes(t, ctx.inbuf, i)| <= outbuf.Length
    ensures i < next && at < xout <= at + 2 && outbuf[at..xout] == TokenBytes(t, ctx.inbuf, i)
    ensures forall k :: 0 <= k < outbuf.Length && !(at <= k < xout) ==> outbuf[k] == old(outbuf[k])
    ensures atEnd ==> next == ctx.bufsize && !haveMatch
    ensures old(ZeroReady(ctx, i, have0)) ==> ZeroReady(ctx, next, haveMatch) && ZeroToken(ctx.inbuf, i, t)
  {
    hide Pow2, Hash, PhraseCode;
    atEnd := false;
    bp, mxoff := Look(ctx, i, bp0, mxoff0, have0);
    if ctx.size >= 3 {
      if ctx.size >= NICE_MATCH_LEN {
        // choose long matches immediately
        var j := i + ctx.size;
        PutPhrase(ctx.inbuf, outbuf, at, i, ctx.rel, bp, j - i);
        t, bit := Phrase(-ctx.rel, j - i), 1;
        xout, next, haveMatch := at + 2, j, false;
        if j == ctx.bufsize {
          atEnd := true;
        } else {
          SkipTo(ctx, i + 1, j);
        }
      } else {
        next, bp, mxoff, haveMatch, xout, bit, t := CodeLazily(ctx, outbuf, at, i, bp, mxoff);
      }
    } else {
      outbuf[at] := ctx.inbuf[i];
      t, bit := Literal(ctx.inbuf[i]), 0;
      xout, next, haveMatch := at + 1, i + 1, false;
    }
  }

  /** The first tokens of a very short text, or of a text of zeroes, are known. */
  ghost predicate KnownStart(text: seq<byte>, done: seq<byte>, ts: seq<Token>, p: nat, i: nat) {
    && (|text| <= 4 ==> done == [] && p == 0 && |ts| == i && forall t <- ts :: t.Literal?)
    && (AllZero(text) && |text| >= 5 ==>
          done == [] && p == 0
          && ts == if i == 0 then [] else if i == 1 then [Literal(0)] else [Literal(0), Phrase(1, |text| - 1)])
  }

  lemma {:induction false} LiteralGroup(ts: seq<Token>, text: seq<byte>, p: nat, q: nat)
    requires |text| <= SB_SIZE && Covers(ts, text, p, q) && forall t <- ts :: t.Literal?
    ensures Tag(ts) == 0 && p <= q <= |text| && Payload(ts, text, p, q) == text[p..q] && |ts| == q - p
    decreases |ts|
  {
    if ts != [] {
      assert ts[0] in ts;
      LiteralGroup(ts[1..], text, p + 1, q);
    }
  }

  lemma ZeroGroup(ts: seq<Token>, text: seq<byte>, q: nat)
    requires 5 <= |text| <= SB_SIZE && ts == [Literal(0), Phrase(1, |text| - 1)]
    requires Covers(ts, text, 0, q)
    ensures Tag(ts) == 2 && |Payload(ts, text, 0, q)| == 3 && Payload(ts, text, 0, q)[0] == 0
  {
    hide PhraseCode;
    var last := ts[1..];
    assert last == [Phrase(1, |text| - 1)] && last[1..] == [];
    assert Tag(last) == 1 + 2 * Tag([]);
    assert Payload(last, text, 1, q) == TokenBytes(last[0], text, 1) + Payload(last[1..], text, |text|, q);
    assert Payload(ts, text, 0, q) == [0] + Payload(last, text, 1, q);
  }

  lemma KnownSize(buf: seq<byte>, done: seq<byte>, ts: seq<Token>, text: seq<byte>, p: nat, i: nat)
    requires Emitted(buf, done, ts, text, p, i) && KnownStart(text, done, ts, p, i)
    requires |text| <= 4 || AllZero(text)
    ensures |buf| <= 5
  {
    hide Tag, Payload, Tokens;
    if |text| <= 4 || i <= 1 {
      LiteralGroup(ts, text, p, i);
    } else {
      ZeroGroup(ts, text, i);
    }
  }

  /** A zero marker decodes to zeroes only. */
  lemma MarkerMeansZero(b: seq<byte>, text: seq<byte>)
    requires |text| <= SB_SIZE && Encodes(b, text) && ZeroMarker(b)
    ensures AllZero(text)
  {
    hide Tokens, CopyBack;
    var src := b[2..];
    var out := Tokens(src, 0, 0, []).value;
    if |b| == 4 {
      ZeroLiterals([0, 0], 1);
    } else if |b| == 5 {
      ZeroLiterals([0, 0, 0], 2);
    } else {
      assert src == [2, 0] + src[2..];
      ZeroPhrase(src);
    }
    assert AllZero(Pad(out)) && text <= Pad(out);
  }

  lemma ZeroLiterals(src: seq<byte>, n: nat)
    requires (n == 1 && src == [0, 0]) || (n == 2 && src == [0, 0, 0])
    ensures Tokens(src, 0, 0, []).Some? && AllZero(Tokens(src, 0, 0, []).value)
  {
    var src1 := src[1..];
    var src2 := src1[1..];
    assert Tokens(src, 0, 0, []) == Tokens(src1, 0, 8, []) == Tokens(src2, 0, 7, [] + [0]);
    if n == 2 {
      assert Tokens(src2, 0, 7, [0]) == Tokens(src2[1..], 0, 6, [0] + [0]);
    }
  }

  lemma ZeroPhrase(src: seq<byte>)
    requires |src| == 4 && src[0] == 2 && src[1] == 0
    ensures Tokens(src, 0, 0, []).Some? ==> AllZero(Tokens(src, 0, 0, []).value)
  {
    hide PhraseBack, PhraseLen;
    var src1 := src[1..];
    var src2 := src1[1..];
    assert Tokens(src, 0, 0, []) == Tokens(src1, 2, 8, []) == Tokens(src2, 1, 7, [] + [0]);
    assert src2[2..] == [];
    var one: seq<byte> := [0];
    assert [] + [0] == one;
    ZeroPhraseStep(src2, one);
  }

  lemma ZeroPhraseStep(src: seq<byte>, one: seq<byte>)
    requires |src| == 2 && one == [0]
    ensures Tokens(src, 1, 7, one).Some? ==> AllZero(Tokens(src, 1, 7, one).value)
  {
    hide PhraseBack, PhraseLen;
    var pt := Le16(src, 0);
    var back, len := PhraseBack(pt, 1), PhraseLen(pt, 1);
    if back > 1 || 1 + len > SB_SIZE {
      assert Tokens(src, 1, 7, one) == None;
    } else {
      CopyZero(one, len);
      assert src[2..] == [];
      assert Tokens(src, 1, 7, one) == Tokens([], 0, 6, CopyBack(one, 1, len));
    }
  }

  lemma {:induction false} CopyZero(out: seq<byte>, n: nat)
    requires |out| >= 1 && AllZero(out)
    ensures AllZero(CopyBack(out, 1, n))
    decreases n
  {
    if n > 0 {
      CopyZero(out + [out[|out| - 1]], n - 1);
    }
  }

  /** A finished block is a zero marker exactly when the text is all zeroes and not three or four
    * bytes long (those are coded as plain literals). */
  lemma MarkerExact(b: seq<byte>, text: seq<byte>, done: seq<byte>, ts: seq<Token>, p: nat)
    requires 1 <= |text| <= SB_SIZE && Encodes(b, text) && Le16(b, 0) == 0xb000 + (|b| - 3)
    requires |ts| <= 8 && p <= |text| && Covers(ts, text, p, |text|) && Tag(ts) < 256
    requires KnownStart(text, done, ts, p, |text|)
    requires done == [] && ts != [] ==> b[2..] == [Tag(ts)] + Payload(ts, text, p, |text|)
    ensures ZeroMarker(b) <==> AllZero(text) && |text| != 3 && |text| != 4
  {
    hide Tag, Payload, Covers, Tokens, SubBlock;
    if |text| <= 4 {
      LiteralGroup(ts, text, p, |text|);
      assert text[p..|text|] == text;
      MarkerShort(b, text);
    } else if AllZero(text) {
      ZeroGroup(ts, text, |text|);
      assert b[2] == b[2..][0] && b[3] == b[2..][1];
    } else if ZeroMarker(b) {
      MarkerMeansZero(b, text);
    }
  }

  lemma MarkerShort(b: seq<byte>, text: seq<byte>)
    requires 1 <= |text| <= 4 && |b| == 3 + |text| && Le16(b, 0) == 0xb000 + |text| && b[2..] == [0] + text
    ensures ZeroMarker(b) <==> AllZero(text) && |text| <= 2
  {
    assert b[2] == b[2..][0];
    assert forall k :: 0 <= k < |text| ==> b[2..][1 + k] == text[k] == b[3 + k];
    assert b[3] == text[0];
    assert |text| == 2 ==> b[4] == text[1];
  }

  lemma StartsEmpty(text: seq<byte>, buf: seq<byte>)
    requires |text| <= SB_SIZE && |buf| == 1
    ensures Emitted(buf, [], [], text, 0, 0) && Tag([]) == 0
    ensures KnownStart(text, [], [], 0, 0)
  {
    hide Tokens;
    NothingEmitted(text);
  }

  lemma HeaderFits(b: seq<byte>, text: seq<byte>)
    requires |text| <= SB_SIZE && 4 <= |b| < SB_SIZE + 2
    requires b[0] == (|b| - 3) % 256 && b[1] == 0xb0 + (|b| - 3) / 256
    requires Tokens(b[2..], 0, 0, []) == Some(text)
    ensures Encodes(b, text) && Le16(b, 0) == 0xb000 + (|b| - 3)
  {
    hide Tokens;
  }

  lemma RawFits(b: seq<byte>, text: seq<byte>)
    requires |text| <= SB_SIZE && b == [0xff, 0x3f] + Pad(text)
    ensures Encodes(b, text)
  {
    assert b[2..] == Pad(text);
  }

  /** Store the block uncompressed, filled with zeroes. */
  method StoreRaw(text: seq<byte>, outbuf: array<byte>, o: nat)
    requires |text| <= SB_SIZE && o + SB_SIZE + 2 <= outbuf.Length
    modifies outbuf
    ensures Encodes(outbuf[o..o + SB_SIZE + 2], text)
    ensures forall k :: 0 <= k < outbuf.Length && !(o <= k < o + SB_SIZE + 2) ==> outbuf[k] == old(outbuf[k])
  {
    forall k | 0 <= k < SB_SIZE {
      outbuf[o + 2 + k] := if k < |text| then text[k] else 0;
    }
    outbuf[o] := 0xff;
    outbuf[o + 1] := 0x3f;
    assert outbuf[o..o + SB_SIZE + 2] == [0xff, 0x3f] + Pad(text);
    RawFits(outbuf[o..o + SB_SIZE + 2], text);
  }

  /** Store a fully used tag and reserve the place of the next one. */
  method StoreFullTag(outbuf: array<byte>, o: nat, ptag: nat, xout0: nat, tag: nat, ghost done: seq<byte>,
                      ghost ts: seq<Token>, ghost text: seq<byte>, ghost p: nat, ghost i: nat)
    returns (xout: nat, ghost done': seq<byte>)
    requires 3 <= xout0 && o + xout0 < outbuf.Length && |ts| == 8 && tag == Tag(ts) && ptag == 2 + |done|
    requires Emitted(outbuf[o + 2..o + xout0], done, ts, text, p, i)
    modifies outbuf
    ensures xout == xout0 + 1 && |done'| == xout0 - 2
    ensures Emitted(outbuf[o + 2..o + xout], done', [], text, i, i)
    ensures forall k :: 0 <= k < outbuf.Length && k != o + ptag ==> outbuf[k] == old(outbuf[k])
  {
    hide Tag, Payload, Covers, Tokens;
    ghost var buf: seq<byte> := outbuf[o + 2..o + xout0];
    TagIsByte(ts);
    outbuf[o + ptag] := tag;
    xout := xout0 + 1;
    ghost var buf': seq<byte> := outbuf[o + 2..o + xout];
    assert buf'[..|buf|] == buf[|done| := Tag(ts)];
    StoreTag(buf, done, ts, text, p, i, buf');
    done' := buf'[..|buf|];
  }

  /** Store the last tag, or give back the place reserved for it. */
  method StoreLastTag(outbuf: array<byte>, o: nat, ptag: nat, xout0: nat, tag: nat, ntag: nat, ghost done: seq<byte>,
                      ghost ts: seq<Token>, ghost text: seq<byte>, ghost p: nat, ghost i: nat)
    returns (xout: nat)
    requires 4 <= xout0 && o + xout0 <= outbuf.Length && tag == Tag(ts) && ptag == 2 + |done| && ntag == 8 - |ts|
    requires Emitted(outbuf[o + 2..o + xout0], done, ts, text, p, i)
    modifies outbuf
    ensures xout == if ts == [] then xout0 - 1 else xout0
    ensures i <= |text| && Tokens(outbuf[o + 2..o + xout], 0, 0, []) == Some(text[..i])
    ensures Tag(ts) < 256
    ensures done == [] && ts != [] ==> outbuf[o + 2..o + xout] == [Tag(ts)] + Payload(ts, text, p, i)
    ensures forall k :: 0 <= k < outbuf.Length && !(o + 2 <= k < o + xout0) ==> outbuf[k] == old(outbuf[k])
  {
    hide Tag, Payload, Covers, Tokens, Codes;
    ghost var buf: seq<byte> := outbuf[o + 2..o + xout0];
    TagIsByte(ts);
    if ntag == 8 {
      xout := xout0 - 1;
    } else {
      xout := xout0;
      outbuf[o + ptag] := tag;
    }
    ghost var buf' := if ts == [] then buf[..|buf| - 1] else buf[|done| := Tag(ts)];
    assert outbuf[o + 2..o + xout] == buf';
    Finish(buf, done, ts, text, p, i, buf');
    if done == [] && ts != [] {
      assert buf' == [Tag(ts)] + Payload(ts, text, p, i);
    }
  }

  /** Complete the header of a block that was compressed to its end. */
  method StoreHeader(outbuf: array<byte>, o: nat, xout: nat, ghost done: seq<byte>, ghost ts: seq<Token>,
                     ghost text: seq<byte>, ghost p: nat)
    requires 1 <= |text| <= SB_SIZE && 4 <= xout < SB_SIZE + 2 && o + xout <= outbuf.Length
    requires |ts| <= 8 && p <= |text| && Covers(ts, text, p, |text|) && Tag(ts) < 256
    requires KnownStart(text, done, ts, p, |text|)
    requires Tokens(outbuf[o + 2..o + xout], 0, 0, []) == Some(text)
    requires done == [] && ts != [] ==> outbuf[o + 2..o + xout] == [Tag(ts)] + Payload(ts, text, p, |text|)
    modifies outbuf
    ensures Encodes(outbuf[o..o + xout], text)
    ensures ZeroMarker(outbuf[o..o + xout]) <==> AllZero(text) && |text| != 3 && |text| != 4
    ensures forall k :: 0 <= k < outbuf.Length && k != o && k != o + 1 ==> outbuf[k] == old(outbuf[k])
  {
    hide Tag, Payload, Covers, Tokens, Encodes, ZeroMarker, KnownStart, AllZero;
    ghost var payload: seq<byte> := outbuf[o + 2..o + xout];
    outbuf[o] := (xout - 3) % 256;
    outbuf[o + 1] := 0xb0 + (xout - 3) / 256 % 16;
    ghost var b: seq<byte> := outbuf[o..o + xout];
    assert b[2..] == payload;
    HeaderFits(b, text);
    EncodesSize(b, text);
    MarkerExact(b, text, done, ts, p);
  }

  lemma EncodesSize(b: seq<byte>, text: seq<byte>)
    requires Encodes(b, text)
    ensures 4 <= |b| <= SB_SIZE + 2
  {
  }

  /** Decide whether to store the data compressed or uncompressed. */
  method FinishBlock(text: seq<byte>, outbuf: array<byte>, o: nat, i: nat, ptag: nat, xout0: nat, tag: nat, ntag: nat,
                     ghost done: seq<byte>, ghost ts: seq<Token>, ghost p: nat)
    returns (xout: nat)
    requires 1 <= |text| <= SB_SIZE && i <= |text| && o + SB_SIZE + 4 <= outbuf.Length
    requires (if ts == [] then 5 else 4) <= xout0 <= SB_SIZE + 4
    requires ptag == 2 + |done| && tag == Tag(ts) && ntag == 8 - |ts|
    requires Emitted(outbuf[o + 2..o + xout0], done, ts, text, p, i) && KnownStart(text, done, ts, p, i)
    requires i == |text| || xout0 >= SB_SIZE + 2
    modifies outbuf
    ensures 4 <= xout <= SB_SIZE + 2
    ensures Encodes(outbuf[o..o + xout], text)
    ensures ZeroMarker(outbuf[o..o + xout]) <==> AllZero(text) && |text| != 3 && |text| != 4
    ensures forall k :: 0 <= k < outbuf.Length && !(o <= k < o + SB_SIZE + 4) ==> outbuf[k] == old(outbuf[k])
  {
    hide Tag, Payload, Covers, Tokens, Encodes, KnownStart, DecodesUpTo, AllZero;
    if |text| <= 4 || AllZero(text) {
      KnownSize(outbuf[o + 2..o + xout0], done, ts, text, p, i);
    }
    xout := StoreLastTag(outbuf, o, ptag, xout0, tag, ntag, done, ts, text, p, i);
    if i >= |text| && xout < SB_SIZE + 2 {
      assert text[..i] == text;
      StoreHeader(outbuf, o, xout, done, ts, text, p);
    } else {
      StoreRaw(text, outbuf, o);
      xout := SB_SIZE + 2;
    }
  }

  /** The next token keeps the known start known. */
  lemma KnownNext(text: seq<byte>, done: seq<byte>, ts: seq<Token>, p: nat, i: nat, t: Token)
    requires |text| <= SB_SIZE && KnownStart(text, done, ts, p, i) && ZeroToken(text, i, t) && Codes(t, text, i)
    requires AllZero(text) && |text| >= 5 ==> i <= 1
    ensures KnownStart(text, done, ts + [t], p, i + t.Length())
  {
  }

  /** A full group is past the known start. */
  lemma KnownFull(text: seq<byte>, done: seq<byte>, ts: seq<Token>, p: nat, i: nat, done': seq<byte>)
    requires i <= |text| && KnownStart(text, done, ts, p, i) && |ts| == 8
    ensures KnownStart(text, done', [], i, i)
  {
  }

  /** Code position i and record its token in the group being written. */
  method CodeNext(ctx: CompressContext, outbuf: array<byte>, o: nat, xout0: nat, i0: nat, bp0: nat, mxoff0: nat,
                  have0: bool, tag0: nat, ntag0: nat, ghost done: seq<byte>, ghost ts0: seq<Token>, ghost p: nat)
    returns (i: nat, bp: nat, mxoff: nat, haveMatch: bool, xout: nat, tag: nat, ntag: nat, atEnd: bool,
             ghost ts: seq<Token>)
    requires Ready(ctx, i0, bp0, mxoff0, have0) && ZeroReady(ctx, i0, have0) && i0 < ctx.bufsize
    requires 3 <= xout0 && o + xout0 + 2 <= outbuf.Length
    requires tag0 == Tag(ts0) && ntag0 == 8 - |ts0| && ntag0 > 0
    requires Emitted(outbuf[o + 2..o + xout0], done, ts0, ctx.inbuf, p, i0) && KnownStart(ctx.inbuf, done, ts0, p, i0)
    modifies outbuf, ctx, ctx.head, ctx.prev
    ensures Ready(ctx, i, bp, mxoff, haveMatch) && ZeroReady(ctx, i, haveMatch)
    ensures i0 < i && xout0 < xout <= xout0 + 2 && (atEnd ==> i == ctx.bufsize)
    ensures |ts| == |ts0| + 1 && tag == Tag(ts) && ntag == 8 - |ts|
    ensures Emitted(outbuf[o + 2..o + xout], done, ts, ctx.inbuf, p, i) && KnownStart(ctx.inbuf, done, ts, p, i)
    ensures forall k :: 0 <= k < outbuf.Length && !(o + xout0 <= k < o + xout) ==> outbuf[k] == old(outbuf[k])
  {
    hide Pow2, Hash, PhraseCode, Tag, Codes, TokenBytes, KnownStart, ZeroToken, Emitted, AllZero;
    ghost var text := ctx.inbuf;
    ghost var buf: seq<byte> := outbuf[o + 2..o + xout0];
    assert AllZero(text) && |text| >= 5 ==> i0 <= 1;
    var bit;
    ghost var t;
    i, bp, mxoff, haveMatch, xout, bit, atEnd, t := CodePosition(ctx, outbuf, o + xout0, i0, bp0, mxoff0, have0);
    assert outbuf[o + 2..xout] == buf + TokenBytes(t, text, i0);
    EmitToken(buf, done, ts0, text, p, i0, t, outbuf[o + 2..xout]);
    KnownNext(text, done, ts0, p, i0, t);
    xout := xout - o;
    tag := if bit == 1 then tag0 + Pow2(8 - ntag0) else tag0;
    ntag := ntag0 - 1;
    ts := ts0 + [t];
  }

  /** Compress a block of 1 to 4096 bytes into outbuf[o..]: a two-byte header and the compressed data,
    * or the block itself when compression does not help. Returns the size used. A zone of 4100 bytes
    * must be available; nothing outside it is written. */
  method CompressBlock(inbuf: seq<byte>, outbuf: array<byte>, o: nat) returns (xout: nat)
    requires 1 <= |inbuf| <= SB_SIZE && o + SB_SIZE + 4 <= outbuf.Length
    modifies outbuf
    ensures 4 <= xout <= SB_SIZE + 2
    ensures Encodes(outbuf[o..o + xout], inbuf)
    ensures ZeroMarker(outbuf[o..o + xout]) <==> AllZero(inbuf) && |inbuf| != 3 && |inbuf| != 4
    ensures forall k :: 0 <= k < outbuf.Length && !(o <= k < o + SB_SIZE + 4) ==> outbuf[k] == old(outbuf[k])
  {
    hide Pow2, Hash, Tag, Encodes, KnownStart, ZeroMarker, Emitted, AllZero;
    Pow2Values();
    var ctx := new CompressContext(inbuf);
    var bufsize := |inbuf|;
    var i, bp, mxoff, haveMatch := 0, 4, 16, false;
    var tag, ntag := 0, 8;
    var ptag := 2;
    xout := 3;
    var atEnd := false;
    ghost var done: seq<byte>, ts: seq<Token>, p: nat := [], [], 0;
    StartsEmpty(inbuf, outbuf[o + 2..o + xout]);
    while i < bufsize && xout < SB_SIZE + 2
      invariant fresh(ctx) && fresh(ctx.head) && fresh(ctx.prev) && ctx.inbuf == inbuf
      invariant Ready(ctx, i, bp, mxoff, haveMatch) && ZeroReady(ctx, i, haveMatch)
      invariant 3 <= xout <= SB_SIZE + 4 && (i > 0 ==> xout >= if ts == [] then 5 else 4)
      invariant ptag == 2 + |done| < xout && tag == Tag(ts) && ntag == 8 - |ts| && ntag > 0
      invariant Emitted(outbuf[o + 2..o + xout], done, ts, inbuf, p, i)
      invariant KnownStart(inbuf, done, ts, p, i)
      invariant forall k :: 0 <= k < outbuf.Length && !(o <= k < o + SB_SIZE + 4) ==> outbuf[k] == old(outbuf[k])
      decreases bufsize - i
    {
      i, bp, mxoff, haveMatch, xout, tag, ntag, atEnd, ts :=
        CodeNext(ctx, outbuf, o, xout, i, bp, mxoff, haveMatch, tag, ntag, done, ts, p);
      if atEnd {
        break;
      }
      if ntag == 0 {
        ghost var done', ts' := done, ts;
        xout, done := StoreFullTag(outbuf, o, ptag, xout, tag, done, ts, inbuf, p, i);
        KnownFull(inbuf, done', ts', p, i, done);
        ptag, tag, ntag := xout - 1, 0, 8;
        ts, p := [], i;
      }
    }
    xout := FinishBlock(inbuf, outbuf, o, i, ptag, xout, tag, ntag, done, ts, p);
  }
}
