/** How far the decoder of LZNT1 streams reaches: exactly when it stores a byte behind its room, when it
  * reads the byte behind the stream, and when the result depends on that byte. */
module Lznt1Bounds {
  import opened Bytes
  import opened Lznt1Format

  /** The decoder between two tokens: the type bits not yet used, and the bytes produced so far. */
  datatype Decoder = Decoder(tag: nat, left: nat, out: seq<byte>)

  const START: Decoder := Decoder(0, 0, [])

  /** The next step of the decoder: how many bytes it takes and where the decoder is then. */
  function Step(src: seq<byte>, d: Decoder): (s: Option<(nat, Decoder)>)
    requires src != []
    ensures s.Some? ==> 1 <= s.value.0 <= |src|
  {
    if |d.out| > SB_SIZE then None
    else if d.left == 0 then Some((1, Decoder(src[0], 8, d.out)))
    else if d.tag % 2 == 0 then Some((1, Decoder(d.tag / 2, d.left - 1, d.out + [src[0]])))
    else if |d.out| == 0 || |src| < 2 then None
    else
      var pt := Le16(src, 0);
      var back, len := PhraseBack(pt, |d.out|), PhraseLen(pt, |d.out|);
      if back > |d.out| || |d.out| + len > SB_SIZE then None
      else Some((2, Decoder(d.tag / 2, d.left - 1, CopyBack(d.out, back, len))))
  }

  /** Where the decoder is after all of src, which ends behind a tag or a token; None if it is stuck. */
  function After(src: seq<byte>, d: Decoder): Option<Decoder>
    decreases |src|
  {
    if src == [] then Some(d)
    else
      match Step(src, d)
      case None => None
      case Some(s) => After(src[s.0..], s.1)
  }

  /** The sub-block is full and a literal comes next. */
  predicate FullBeforeLiteral(d: Decoder) {
    |d.out| == SB_SIZE && d.left > 0 && d.tag % 2 == 0
  }

  /** A phrase comes next. */
  predicate BeforePhrase(d: Decoder) {
    0 < |d.out| <= SB_SIZE && d.left > 0 && d.tag % 2 == 1
  }

  /** After the first n bytes of the tokens the sub-block is full, and the literal x follows. */
  ghost predicate GoesOn(src: seq<byte>, d: Decoder, n: nat, x: byte) {
    n < |src| && src[n] == x && After(src[..n], d).Some? && FullBeforeLiteral(After(src[..n], d).value)
  }

  /** The last byte of the tokens is the first one of a phrase. */
  ghost predicate CutOff(src: seq<byte>, d: Decoder) {
    |src| >= 1 && After(src[..|src| - 1], d).Some? && BeforePhrase(After(src[..|src| - 1], d).value)
  }

  /** The decoder produces what the format says. */
  lemma {:induction false} AfterProduces(src: seq<byte>, d: Decoder)
    ensures Tokens(src, d.tag, d.left, d.out)
            == match After(src, d) case None => None case Some(e) => Some(e.out)
    decreases |src|
  {
    hide PhraseBack, PhraseLen, CopyBack;
    if src != [] && |d.out| <= SB_SIZE {
      if d.left == 0 {
        AfterProduces(src[1..], Decoder(src[0], 8, d.out));
      } else if d.tag % 2 == 0 {
        AfterProduces(src[1..], Decoder(d.tag / 2, d.left - 1, d.out + [src[0]]));
      } else if |d.out| > 0 && |src| >= 2 {
        var pt := Le16(src, 0);
        var back, len := PhraseBack(pt, |d.out|), PhraseLen(pt, |d.out|);
        if back <= |d.out| && |d.out| + len <= SB_SIZE {
          AfterProduces(src[2..], Decoder(d.tag / 2, d.left - 1, CopyBack(d.out, back, len)));
        }
      }
    }
  }

  /** One step, seen from a beginning of the tokens. */
  lemma AfterStep(src: seq<byte>, d: Decoder, n: nat)
    requires 0 < n <= |src|
    ensures var s := Step(src, d);
            After(src[..n], d) ==
            if s.Some? && s.value.0 <= n then After(src[s.value.0..][..n - s.value.0], s.value.1) else None
  {
    hide PhraseBack, PhraseLen, CopyBack;
    var a := src[..n];
    assert a[1..] == src[1..][..n - 1];
    if n >= 2 {
      assert a[2..] == src[2..][..n - 2];
      assert Le16(a, 0) == Le16(src, 0);
    }
  }

  lemma PastStep(src: seq<byte>, d: Decoder)
    requires src != []
    ensures Past(src, d.tag, d.left, d.out) ==
            if FullBeforeLiteral(d) then Some(src[0])
            else match Step(src, d)
              case None => None
              case Some(s) => Past(src[s.0..], s.1.tag, s.1.left, s.1.out)
  {
    hide PhraseBack, PhraseLen, CopyBack;
  }

  lemma PendingStep(src: seq<byte>, d: Decoder)
    requires |src| >= 2
    ensures Pending(src, d.tag, d.left, d.out) ==
            match Step(src, d)
            case None => false
            case Some(s) => Pending(src[s.0..], s.1.tag, s.1.left, s.1.out)
  {
    hide PhraseBack, PhraseLen, CopyBack;
  }

  lemma PendingLast(src: seq<byte>, d: Decoder)
    requires |src| == 1
    ensures Pending(src, d.tag, d.left, d.out) == BeforePhrase(d)
  {
    assert src[1..] == [];
    if d.left > 0 && d.tag % 2 == 0 {
      assert !Pending([], d.tag / 2, d.left - 1, d.out + [src[0]]);
    }
  }

  /** A byte is stored behind the sub-block exactly when the tokens fill it and go on with a literal. */
  lemma {:induction false} PastIff(src: seq<byte>, d: Decoder, x: byte)
    requires |d.out| <= SB_SIZE
    ensures Past(src, d.tag, d.left, d.out) == Some(x) <==> exists n: nat :: GoesOn(src, d, n, x)
    decreases |src|
  {
    hide Past, After, Step;
    if src == [] {
      PastEmpty(d);
      return;
    }
    PastStep(src, d);
    AfterNothing(src, d);
    var s := Step(src, d);
    if FullBeforeLiteral(d) {
      if Past(src, d.tag, d.left, d.out) == Some(x) {
        assert GoesOn(src, d, 0, x);
      }
      forall n: nat | GoesOn(src, d, n, x) ensures n == 0 {
        if n > 0 {
          AfterStep(src, d, n);
          FullStuck(src, d, n);
        }
      }
    } else if s.Some? {
      var k, e := s.value.0, s.value.1;
      StepOut(src, d);
      if |e.out| <= SB_SIZE {
        PastIff(src[k..], e, x);
        if Past(src, d.tag, d.left, d.out) == Some(x) {
          var n: nat :| GoesOn(src[k..], e, n, x);
          AfterStep(src, d, n + k);
          assert src[k..][n] == src[n + k];
          assert GoesOn(src, d, n + k, x);
        }
        forall n: nat | GoesOn(src, d, n, x) ensures n >= k && GoesOn(src[k..], e, n - k, x) {
          AfterStep(src, d, n);
          assert src[k..][n - k] == src[n];
        }
      }
    } else {
      forall n: nat | GoesOn(src, d, n, x) ensures false {
        AfterStep(src, d, n);
      }
    }
  }

  lemma PastEmpty(d: Decoder)
    ensures Past([], d.tag, d.left, d.out) == None
  {
  }

  lemma AfterNothing(src: seq<byte>, d: Decoder)
    ensures After(src[..0], d) == Some(d)
  {
  }

  lemma FullStuck(src: seq<byte>, d: Decoder, n: nat)
    requires FullBeforeLiteral(d) && 0 < n < |src|
    ensures After(src[..n], d).None? || |After(src[..n], d).value.out| > SB_SIZE
  {
    var a := src[..n];
    assert |d.out + [a[0]]| > SB_SIZE;
  }

  lemma StepOut(src: seq<byte>, d: Decoder)
    requires src != [] && |d.out| <= SB_SIZE && !FullBeforeLiteral(d)
    ensures Step(src, d).Some? ==> |Step(src, d).value.1.out| <= SB_SIZE
  {
    hide PhraseBack, PhraseLen, CopyBack;
  }

  /** The byte behind the tokens is read for a phrase exactly when the tokens end in the middle of one. */
  lemma {:induction false} PendingIff(src: seq<byte>, d: Decoder)
    ensures Pending(src, d.tag, d.left, d.out) <==> CutOff(src, d)
    decreases |src|
  {
    hide Pending, After, Step;
    if src == [] {
      PendingEmpty(d);
    } else {
      if |src| == 1 {
        PendingLast(src, d);
        AfterNothing(src, d);
      } else {
        PendingStep(src, d);
        AfterStep(src, d, |src| - 1);
        var s := Step(src, d);
        if s.Some? {
          var k, e := s.value.0, s.value.1;
          PendingIff(src[k..], e);
          if k == |src| {
            PendingEmpty(e);
          } else {
            assert src[k..][..|src| - 1 - k] == src[k..][..|src[k..]| - 1];
          }
        }
      }
    }
  }

  lemma PendingEmpty(d: Decoder)
    ensures !Pending([], d.tag, d.left, d.out)
  {
  }

  // ----- streams -----

  /** The room that is left when the sub-blocks so far end behind the first k bytes of the stream; None if
    * they do not. */
  function Reach(src: seq<byte>, room: int, k: nat): (left: Option<int>)
    requires k <= |src| && room >= -1
    ensures left.Some? ==> left.value >= -1
    decreases |src|
  {
    if k == 0 then Some(room)
    else if !Opens(src, room) || SubBlockSize(src) > k then None
    else
      var n := SubBlockSize(src);
      match SubBlock(src[..n])
      case None => None
      case Some(p) => Reach(src[n..], room - |p|, k - n)
  }

  /** A compressed sub-block begins after k bytes; these are its tokens. */
  predicate Coded(src: seq<byte>, k: nat, left: int)
    requires k <= |src|
  {
    Opens(src[k..], left) && Le16(src[k..], 0) >= SB_IS_COMPRESSED
  }

  function Payload(src: seq<byte>, k: nat): seq<byte>
    requires k <= |src| && |src[k..]| >= 2 && SubBlockSize(src[k..]) <= |src[k..]|
  {
    src[k..][..SubBlockSize(src[k..])][2..]
  }

  /** The sub-block after k bytes fills the last 4096 bytes of the room and goes on with the literal x. */
  ghost predicate Overfills(src: seq<byte>, room: int, k: nat, x: byte)
    requires room >= -1
  {
    && k <= |src| && Reach(src, room, k) == Some(SB_SIZE) && Coded(src, k, SB_SIZE)
    && Continues(Payload(src, k), x)
  }

  /** The tokens fill the sub-block and go on with the literal x. */
  ghost predicate Continues(payload: seq<byte>, x: byte) {
    exists n: nat :: GoesOn(payload, START, n, x)
  }

  /** The stream ends with the first byte of a header, or in the middle of a phrase of the last sub-block. */
  ghost predicate EndsShort(src: seq<byte>, room: int, k: nat)
    requires room >= -1
  {
    && k < |src| && Reach(src, room, k).Some?
    && (k + 1 == |src| ||
        (Coded(src, k, Reach(src, room, k).value) && k + SubBlockSize(src[k..]) == |src|
         && CutOff(Payload(src, k), START)))
  }

  /** The sub-block at the beginning of the stream. */
  lemma OverfillsHere(src: seq<byte>, room: int, x: byte)
    requires Opens(src, room)
    ensures Overfills(src, room, 0, x) <==> room == SB_SIZE && PastSubBlock(src[..SubBlockSize(src)]) == Some(x)
  {
    hide SubBlock, Past;
    var n := SubBlockSize(src);
    assert src[0..] == src;
    assert Le16(src[..n], 0) == Le16(src, 0);
    assert Coded(src, 0, room) ==> Payload(src, 0) == src[..n][2..];
    PastIff(src[..n][2..], START, x);
  }

  /** The sub-blocks behind it. */
  lemma OverfillsLater(src: seq<byte>, room: int, k: nat, x: byte)
    requires Opens(src, room) && k > 0
    ensures var n := SubBlockSize(src);
            Overfills(src, room, k, x) <==>
            n <= k && SubBlock(src[..n]).Some? && Overfills(src[n..], room - |SubBlock(src[..n]).value|, k - n, x)
  {
    hide SubBlock, Continues, SubBlockSize;
    var n := SubBlockSize(src);
    if n <= k <= |src| {
      assert src[n..][k - n..] == src[k..];
      assert Coded(src, k, SB_SIZE) ==> Payload(src, k) == Payload(src[n..], k - n);
    }
  }

  /** Without a further sub-block nothing is filled. */
  lemma NothingOpens(src: seq<byte>, room: int, k: nat, x: byte)
    requires room >= -1 && !Opens(src, room)
    ensures !Overfills(src, room, k, x)
  {
    assert src[0..] == src;
  }

  lemma StreamPast(src: seq<byte>, behind: byte, room: int)
    requires room >= -1
    ensures !Opens(src, room) ==> Stream(src, behind, room).past == None
    ensures Opens(src, room) ==>
              var b := src[..SubBlockSize(src)];
              Stream(src, behind, room).past ==
              if room == SB_SIZE && PastSubBlock(b).Some? then PastSubBlock(b)
              else if SubBlock(b).Some? then Stream(src[|b|..], behind, room - |SubBlock(b).value|).past
              else None
  {
    hide SubBlock, PastSubBlock;
  }

  /** Exactly when a byte is stored behind the room. */
  lemma {:induction false} StoredBehind(src: seq<byte>, behind: byte, room: int, x: byte)
    requires room >= -1
    ensures Stream(src, behind, room).past == Some(x) <==> exists k: nat :: Overfills(src, room, k, x)
    decreases |src|
  {
    hide Stream, Overfills, SubBlock, PastSubBlock;
    StreamPast(src, behind, room);
    if !Opens(src, room) {
      forall k: nat ensures !Overfills(src, room, k, x) {
        NothingOpens(src, room, k, x);
      }
      return;
    }
    var n := SubBlockSize(src);
    var p := SubBlock(src[..n]);
    OverfillsHere(src, room, x);
    if p.Some? {
      StoredBehind(src[n..], behind, room - |p.value|, x);
      StreamPast(src[n..], behind, room - |p.value|);
    }
    forall k: nat | k > 0
      ensures Overfills(src, room, k, x) <==>
              n <= k && p.Some? && Overfills(src[n..], room - |p.value|, k - n, x)
    {
      OverfillsLater(src, room, k, x);
    }
    if p.Some? && Stream(src[n..], behind, room - |p.value|).past == Some(x) {
      var k: nat :| Overfills(src[n..], room - |p.value|, k, x);
      assert Overfills(src, room, k + n, x);
    }
  }

  lemma ShortHere(src: seq<byte>, room: int)
    requires Opens(src, room)
    ensures EndsShort(src, room, 0) <==> SubBlockSize(src) == |src| && PendingSubBlock(src[..SubBlockSize(src)])
  {
    hide SubBlock, Pending;
    var n := SubBlockSize(src);
    assert src[0..] == src;
    assert Le16(src[..n], 0) == Le16(src, 0);
    assert Coded(src, 0, room) ==> Payload(src, 0) == src[..n][2..];
    PendingIff(src[..n][2..], START);
  }

  lemma ShortLater(src: seq<byte>, room: int, k: nat)
    requires Opens(src, room) && k > 0
    ensures var n := SubBlockSize(src);
            EndsShort(src, room, k) <==>
            n <= k && SubBlock(src[..n]).Some? && EndsShort(src[n..], room - |SubBlock(src[..n]).value|, k - n)
  {
    hide SubBlock, CutOff, SubBlockSize;
    var n := SubBlockSize(src);
    if n <= k < |src| {
      assert src[n..][k - n..] == src[k..];
      var left := Reach(src, room, k);
      assert left.Some? && Coded(src, k, left.value) ==> Payload(src, k) == Payload(src[n..], k - n);
    }
  }

  lemma NothingShort(src: seq<byte>, room: int, k: nat)
    requires room >= -1 && !Opens(src, room)
    ensures EndsShort(src, room, k) <==> k == 0 && |src| == 1
  {
    assert src[0..] == src;
  }

  lemma StreamPeeks(src: seq<byte>, behind: byte, room: int)
    requires room >= -1
    ensures !Opens(src, room) ==> (Stream(src, behind, room).peeks <==> |src| == 1)
    ensures Opens(src, room) ==>
              var b := src[..SubBlockSize(src)];
              Stream(src, behind, room).peeks <==>
              (|b| == |src| && PendingSubBlock(b))
              || (SubBlock(b).Some? && Stream(src[|b|..], behind, room - |SubBlock(b).value|).peeks)
  {
    hide SubBlock, PastSubBlock, PendingSubBlock;
  }

  /** Exactly when the byte behind the stream is read. */
  lemma {:induction false} ReadBehind(src: seq<byte>, behind: byte, room: int)
    requires room >= -1
    ensures Stream(src, behind, room).peeks <==> exists k: nat :: EndsShort(src, room, k)
    decreases |src|
  {
    hide Stream, EndsShort, SubBlock, PendingSubBlock;
    StreamPeeks(src, behind, room);
    if !Opens(src, room) {
      forall k: nat ensures EndsShort(src, room, k) <==> k == 0 && |src| == 1 {
        NothingShort(src, room, k);
      }
      assert |src| == 1 ==> EndsShort(src, room, 0);
      return;
    }
    var n := SubBlockSize(src);
    var p := SubBlock(src[..n]);
    ShortHere(src, room);
    if p.Some? {
      ReadBehind(src[n..], behind, room - |p.value|);
    }
    forall k: nat | k > 0
      ensures EndsShort(src, room, k) <==>
              n <= k && p.Some? && EndsShort(src[n..], room - |p.value|, k - n)
    {
      ShortLater(src, room, k);
    }
    if p.Some? && Stream(src[n..], behind, room - |p.value|).peeks {
      var k: nat :| EndsShort(src[n..], room - |p.value|, k);
      assert EndsShort(src, room, k + n);
    }
  }

  /** One zero byte is left, and room as well. */
  predicate HalfHeader(src: seq<byte>, room: int)
    requires room >= -1
  {
    && |src| >= 1 && src[|src| - 1] == 0
    && Reach(src, room, |src| - 1).Some? && Reach(src, room, |src| - 1).value != 0
  }

  /** Exactly when what is decoded depends on the byte behind the stream: that byte alone then decides
    * whether the last byte is the beginning of a closing header. */
  lemma {:induction false} BehindMatters(src: seq<byte>, b: byte, c: byte, room: int)
    requires room >= -1
    ensures Stream(src, b, room).out != Stream(src, c, room).out <==> HalfHeader(src, room) && (b == 0) != (c == 0)
    ensures HalfHeader(src, room) ==> (Stream(src, b, room).out.Some? <==> b == 0)
    decreases |src|
  {
    hide SubBlock, PastSubBlock, PendingSubBlock;
    if Opens(src, room) {
      var n := SubBlockSize(src);
      var p := SubBlock(src[..n]);
      if p.Some? {
        BehindMatters(src[n..], b, c, room - |p.value|);
        PrependSame(p.value, Stream(src[n..], b, room - |p.value|), Stream(src[n..], c, room - |p.value|));
      }
      assert n < |src| ==> src[n..][|src| - n - 1] == src[|src| - 1];
    }
  }

  lemma PrependSame(p: seq<byte>, r: Reading, q: Reading)
    ensures Prepend(p, r).out == Prepend(p, q).out <==> r.out == q.out
  {
    if r.out.Some? && q.out.Some? && p + r.out.value == p + q.out.value {
      assert r.out.value == (p + r.out.value)[|p|..] == (p + q.out.value)[|p|..] == q.out.value;
    }
  }

  /** What is decoded fits the room, unless one byte more has been stored; that one is the last. */
  lemma {:induction false} StreamFits(src: seq<byte>, behind: byte, room: int)
    requires room >= 0 && Stream(src, behind, room).out.Some?
    ensures var r := Stream(src, behind, room);
            if |r.out.value| > room then r.past == Some(r.out.value[room]) else r.past == None
    decreases |src|
  {
    hide SubBlock, PastSubBlock, PendingSubBlock;
    StreamPast(src, behind, room);
    if Opens(src, room) {
      var n := SubBlockSize(src);
      var p := SubBlock(src[..n]).value;
      SubBlockFits(src[..n]);
      StreamPast(src[n..], behind, room - |p|);
      if room >= |p| {
        StreamFits(src[n..], behind, room - |p|);
      }
    }
  }

  lemma SubBlockFits(b: seq<byte>)
    requires |b| >= 3 && SubBlock(b).Some?
    ensures var p := SubBlock(b).value; if |p| > SB_SIZE then PastSubBlock(b) == Some(p[SB_SIZE])
            else PastSubBlock(b) == None
  {
    hide Past, Tokens;
    if Le16(b, 0) >= SB_IS_COMPRESSED {
      PastIsLast(b[2..], 0, 0, []);
    }
  }

  // ----- a stream for each case -----

  /** The longest phrase at position 1. */
  lemma LongestPhrase()
    ensures PhraseBack(0x0ffc, 1) == 1 && PhraseLen(0x0ffc, 1) == 4095
  {
    assert Lg(0) == 0;
    assert Pow2(6) == 64;
    Pow2Sum(6, 6);
    assert LengthSpan(1) == 4096;
  }

  lemma NoTokens(tag: nat, left: nat, out: seq<byte>)
    ensures Tokens([], tag, left, out) == Some(out)
  {
  }

  /** The three kinds of steps. */
  lemma TagNext(tag: byte, src: seq<byte>, out: seq<byte>)
    requires |out| <= SB_SIZE
    ensures Tokens([tag] + src, 0, 0, out) == Tokens(src, tag, 8, out)
    ensures Past([tag] + src, 0, 0, out) == Past(src, tag, 8, out)
    ensures Pending([tag] + src, 0, 0, out) == Pending(src, tag, 8, out)
  {
    assert ([tag] + src)[1..] == src;
  }

  lemma LiteralNext(x: byte, src: seq<byte>, tag: nat, left: nat, out: seq<byte>)
    requires |out| <= SB_SIZE && left > 0 && tag % 2 == 0
    ensures Tokens([x] + src, tag, left, out) == Tokens(src, tag / 2, left - 1, out + [x])
    ensures Past([x] + src, tag, left, out) ==
            if |out| == SB_SIZE then Some(x) else Past(src, tag / 2, left - 1, out + [x])
    ensures Pending([x] + src, tag, left, out) == Pending(src, tag / 2, left - 1, out + [x])
  {
    assert ([x] + src)[1..] == src;
  }

  lemma PhraseNext(lo: byte, hi: byte, src: seq<byte>, tag: nat, left: nat, out: seq<byte>, back: nat, len: nat)
    requires 0 < |out| <= SB_SIZE && left > 0 && tag % 2 == 1
    requires var pt := (lo as int) + 256 * (hi as int); back == PhraseBack(pt, |out|) && len == PhraseLen(pt, |out|)
    requires back <= |out| && |out| + len <= SB_SIZE
    ensures Tokens([lo, hi] + src, tag, left, out) == Tokens(src, tag / 2, left - 1, CopyBack(out, back, len))
    ensures Past([lo, hi] + src, tag, left, out) == Past(src, tag / 2, left - 1, CopyBack(out, back, len))
  {
    hide CopyBack, PhraseBack, PhraseLen;
    assert ([lo, hi] + src)[2..] == src;
  }

  /** The tokens of a zero, a phrase of 4095 more, and the literal "A". */
  lemma TokensGoOn() returns (out: seq<byte>)
    ensures |out| == SB_SIZE + 1
    ensures Tokens([0x02] + ([0x00] + ([0xfc, 0x0f] + ([0x41] + []))), 0, 0, []) == Some(out)
    ensures Past([0x02] + ([0x00] + ([0xfc, 0x0f] + ([0x41] + []))), 0, 0, []) == Some(0x41)
  {
    hide Tokens, Past, Pending, CopyBack, PhraseBack, PhraseLen;
    LongestPhrase();
    var zero: seq<byte> := [0x00];
    var full := CopyBack(zero, 1, 4095);
    TagNext(0x02, [0x00] + ([0xfc, 0x0f] + ([0x41] + [])), []);
    LiteralNext(0x00, [0xfc, 0x0f] + ([0x41] + []), 2, 8, []);
    assert [] + [0x00] == zero;
    PhraseNext(0xfc, 0x0f, [0x41] + [], 1, 7, zero, 1, 4095);
    LiteralNext(0x41, [], 0, 6, full);
    out := full + [0x41];
    NoTokens(0, 5, out);
  }

  lemma StreamOfOne(lo: byte, hi: byte, tokens: seq<byte>, behind: byte, room: int)
    requires |tokens| >= 4 && hi >= 128 && (lo as int) + 256 * (hi as int) == 0xb000 + |tokens| - 1 && |tokens| <= 4096
    requires room >= SB_SIZE
    ensures var r := Stream([lo, hi] + tokens, behind, room);
            && r.past == (if room == SB_SIZE then Past(tokens, 0, 0, []) else None)
            && r.peeks == Pending(tokens, 0, 0, [])
            && r.out == match Tokens(tokens, 0, 0, []) case None => None case Some(out) => Some(Pad(out))
  {
    hide Tokens, Past, Pending, Pad;
    var src := [lo, hi] + tokens;
    assert Le16(src, 0) == 0xb000 + |tokens| - 1;
    assert SubBlockSize(src) == |src| && src[..|src|] == src && src[2..] == tokens && src[|src|..] == [];
    if Tokens(tokens, 0, 0, []).Some? {
      DecodedInside(tokens, 0, 0, []);
      var p := SubBlock(src).value;
      assert Stream([], behind, room - |p|) == Reading(Some([]), None, false);
      assert p + [] == p;
    }
  }

  /** These tokens decode successfully, with a byte stored behind the room. */
  lemma LiteralBehind(behind: byte)
    ensures var r := Stream([0x04, 0xb0, 0x02, 0x00, 0xfc, 0x0f, 0x41], behind, SB_SIZE);
            r.past == Some(0x41) && !r.peeks && r.out.Some? && |r.out.value| == SB_SIZE + 1
  {
    hide Tokens, Past, Pending, Stream;
    var out := TokensGoOn();
    var tokens := [0x02] + ([0x00] + ([0xfc, 0x0f] + ([0x41] + [])));
    StreamOfOne(0x04, 0xb0, tokens, behind, SB_SIZE);
    DecodedInside(tokens, 0, 0, []);
    assert [0x04, 0xb0] + tokens == [0x04, 0xb0, 0x02, 0x00, 0xfc, 0x0f, 0x41];
  }

  /** A phrase whose second byte is behind the stream: it is read, and then the stream is refused. */
  lemma PhraseBehind(behind: byte, room: nat)
    requires room >= SB_SIZE
    ensures var r := Stream([0x03, 0xb0, 0x04, 0x00, 0x00, 0x05], behind, room); r.peeks && r.out == None
  {
    hide Tokens, Pending, Stream;
    var tokens := [0x04] + ([0x00] + ([0x00] + [0x05]));
    TagNext(0x04, [0x00] + ([0x00] + [0x05]), []);
    LiteralNext(0x00, [0x00] + [0x05], 4, 8, []);
    LiteralNext(0x00, [0x05], 2, 7, [] + [0x00]);
    PendingLast([0x05], Decoder(1, 6, [] + [0x00] + [0x00]));
    StreamOfOne(0x03, 0xb0, tokens, behind, room);
    if Tokens(tokens, 0, 0, []).Some? {
      DecodedInside(tokens, 0, 0, []);
      assert false;
    }
    assert [0x03, 0xb0] + tokens == [0x03, 0xb0, 0x04, 0x00, 0x00, 0x05];
  }

  /** A single zero byte is a closing header only with another one behind it. */
  lemma HeaderBehind(behind: byte, room: nat)
    requires room > 0
    ensures var r := Stream([0], behind, room); r.peeks && (r.out.Some? <==> behind == 0)
  {
  }
}
