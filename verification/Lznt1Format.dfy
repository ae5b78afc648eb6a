/** The LZNT1 format (MS-XCA, section 2.5) as a functional decoder over byte sequences, the
  * reference against which both the compressor and the imperative decompressor are proved.
  *
  * A stream is a series of sub-blocks, each announced by a 16-bit header and each standing for
  * 4096 bytes. A compressed sub-block is a series of groups: a tag byte, then up to eight tokens,
  * each a literal byte or a 16-bit phrase (go back, copy). How the 16 bits are split between
  * distance and length depends on the position in the sub-block.
  */
module Lznt1Format {
  import opened Bytes

  const SB_SIZE: nat := 4096
  const SB_SIZE_MASK_PLUS_ONE: nat := 4096
  const SB_IS_COMPRESSED: nat := 0x8000

  /** How many times n is halved before it drops below 16: the number of extra distance bits at
    * position n + 1. */
  function Lg(n: nat): (lg: nat)
    ensures n < 16 * Pow2(lg)
    ensures lg > 0 ==> 8 * Pow2(lg) <= n
  {
    if n < 16 then 0 else 1 + Lg(n / 2)
  }

  /** The number of length bits of a phrase coded at position p. */
  function LengthBits(p: nat): (bits: nat)
    requires 1 <= p <= SB_SIZE
    ensures 4 <= bits <= 12
  {
    Pow2Monotone(9, if Lg(p - 1) >= 9 then Lg(p - 1) else 9);
    12 - Lg(p - 1)
  }

  /** The number of lengths a phrase at position p can code. */
  function LengthSpan(p: nat): (m: nat)
    requires 1 <= p <= SB_SIZE
    ensures m >= 1
  {
    Pow2(LengthBits(p))
  }

  /** Distance and length of the phrase with 16-bit code pt at position p. */
  function PhraseBack(pt: nat, p: nat): (back: nat)
    requires 1 <= p <= SB_SIZE
    ensures back >= 1
  {
    hide LengthSpan;
    pt / LengthSpan(p) + 1
  }

  function PhraseLen(pt: nat, p: nat): (len: nat)
    requires 1 <= p <= SB_SIZE
    ensures len >= 3
  {
    pt % LengthSpan(p) + 3
  }

  /** Append n bytes, each equal to the byte `back` places before it (the source may overlap). */
  function CopyBack(out: seq<byte>, back: nat, n: nat): (r: seq<byte>)
    requires 1 <= back <= |out|
    ensures |r| == |out| + n && out <= r
    decreases n
  {
    if n == 0 then out else CopyBack(out + [out[|out| - back]], back, n - 1)
  }

  /** Any sequence that extends `out` with every new byte equal to the one `back` before it is
    * the copy. */
  lemma {:induction false} CopyBackUnique(out: seq<byte>, back: nat, n: nat, r: seq<byte>)
    requires 1 <= back <= |out|
    requires |r| == |out| + n && out <= r
    requires forall t :: |out| <= t < |r| ==> r[t] == r[t - back]
    ensures r == CopyBack(out, back, n)
    decreases n
  {
    if n > 0 {
      var out' := out + [out[|out| - back]];
      assert r[|out|] == r[|out| - back] == out[|out| - back];
      assert out' <= r;
      CopyBackUnique(out', back, n - 1, r);
    }
  }

  /** Decode the payload of a compressed sub-block. `tag` holds the `left` type bits not yet used,
    * `out` the bytes produced so far. None when the payload is malformed. */
  function Tokens(src: seq<byte>, tag: nat, left: nat, out: seq<byte>): (r: Option<seq<byte>>)
    ensures r.Some? ==> out <= r.value && (|out| <= SB_SIZE + 1 ==> |r.value| <= SB_SIZE + 1)
    decreases |src|
  {
    if src == [] then Some(out)
    else if |out| > SB_SIZE then None
    else if left == 0 then Tokens(src[1..], src[0], 8, out)
    else if tag % 2 == 0 then Tokens(src[1..], tag / 2, left - 1, out + [src[0]])
    else if |out| == 0 || |src| < 2 then None
    else
      var pt := Le16(src, 0);
      var back, len := PhraseBack(pt, |out|), PhraseLen(pt, |out|);
      if back > |out| || |out| + len > SB_SIZE then None
      else Tokens(src[2..], tag / 2, left - 1, CopyBack(out, back, len))
  }

  /** The byte of a literal that is coded when the sub-block is full already: the decoder stores it behind
    * the sub-block. */
  function Past(src: seq<byte>, tag: nat, left: nat, out: seq<byte>): Option<byte>
    decreases |src|
  {
    if src == [] || |out| > SB_SIZE then None
    else if left == 0 then Past(src[1..], src[0], 8, out)
    else if tag % 2 == 0 then
      if |out| == SB_SIZE then Some(src[0]) else Past(src[1..], tag / 2, left - 1, out + [src[0]])
    else if |out| == 0 || |src| < 2 then None
    else
      var pt := Le16(src, 0);
      var back, len := PhraseBack(pt, |out|), PhraseLen(pt, |out|);
      if back > |out| || |out| + len > SB_SIZE then None
      else Past(src[2..], tag / 2, left - 1, CopyBack(out, back, len))
  }

  /** Is the last byte the first one of a phrase? The decoder reads the byte behind it, too. */
  predicate Pending(src: seq<byte>, tag: nat, left: nat, out: seq<byte>)
    decreases |src|
  {
    if src == [] || |out| > SB_SIZE then false
    else if left == 0 then Pending(src[1..], src[0], 8, out)
    else if tag % 2 == 0 then Pending(src[1..], tag / 2, left - 1, out + [src[0]])
    else if |out| == 0 then false
    else if |src| < 2 then true
    else
      var pt := Le16(src, 0);
      var back, len := PhraseBack(pt, |out|), PhraseLen(pt, |out|);
      if back > |out| || |out| + len > SB_SIZE then false
      else Pending(src[2..], tag / 2, left - 1, CopyBack(out, back, len))
  }

  /** What decodes to a sub-block at most leaves nothing past it, and no phrase is cut off at the end. */
  lemma {:induction false} DecodedInside(src: seq<byte>, tag: nat, left: nat, out: seq<byte>)
    requires Tokens(src, tag, left, out).Some?
    ensures !Pending(src, tag, left, out)
    ensures |Tokens(src, tag, left, out).value| <= SB_SIZE ==> Past(src, tag, left, out) == None
    decreases |src|
  {
    hide PhraseBack, PhraseLen, CopyBack;
    if src != [] && |out| <= SB_SIZE {
      if left == 0 {
        DecodedInside(src[1..], src[0], 8, out);
      } else if tag % 2 == 0 {
        DecodedInside(src[1..], tag / 2, left - 1, out + [src[0]]);
      } else {
        var pt := Le16(src, 0);
        var back, len := PhraseBack(pt, |out|), PhraseLen(pt, |out|);
        DecodedInside(src[2..], tag / 2, left - 1, CopyBack(out, back, len));
      }
    }
  }

  /** What is decoded fits the sub-block, unless one byte more has been stored; that one is the last. */
  lemma {:induction false} PastIsLast(src: seq<byte>, tag: nat, left: nat, out: seq<byte>)
    requires Tokens(src, tag, left, out).Some? && |out| <= SB_SIZE
    ensures var r, x := Tokens(src, tag, left, out).value, Past(src, tag, left, out);
            if |r| > SB_SIZE then x == Some(r[SB_SIZE]) else x == None
    decreases |src|
  {
    hide PhraseBack, PhraseLen, CopyBack;
    if src != [] {
      if left == 0 {
        PastIsLast(src[1..], src[0], 8, out);
      } else if tag % 2 == 0 {
        if |out| < SB_SIZE {
          PastIsLast(src[1..], tag / 2, left - 1, out + [src[0]]);
        }
      } else {
        var pt := Le16(src, 0);
        var back, len := PhraseBack(pt, |out|), PhraseLen(pt, |out|);
        PastIsLast(src[2..], tag / 2, left - 1, CopyBack(out, back, len));
      }
    }
  }

  /** Fill an incomplete sub-block with zeroes. */
  function Pad(out: seq<byte>): (r: seq<byte>)
    ensures out <= r && |r| >= SB_SIZE
    ensures |out| <= SB_SIZE ==> |r| == SB_SIZE
    ensures forall k :: |out| <= k < |r| ==> r[k] == 0
  {
    if |out| < SB_SIZE then out + Zeros(SB_SIZE - |out|) else out
  }

  function SubBlockSize(src: seq<byte>): (n: nat)
    requires |src| >= 2
    ensures n >= 3
  {
    Le16(src, 0) % SB_SIZE_MASK_PLUS_ONE + 3
  }

  /** Decode one sub-block, header included. */
  function SubBlock(b: seq<byte>): (r: Option<seq<byte>>)
    requires |b| >= 3
    ensures r.Some? ==> SB_SIZE <= |r.value| <= SB_SIZE + 1
  {
    if Le16(b, 0) < SB_IS_COMPRESSED then
      if |b| == SB_SIZE + 2 then Some(b[2..]) else None
    else
      match Tokens(b[2..], 0, 0, [])
      case None => None
      case Some(out) => Some(Pad(out))
  }

  function PastSubBlock(b: seq<byte>): Option<byte>
    requires |b| >= 3
  {
    if Le16(b, 0) < SB_IS_COMPRESSED then None else Past(b[2..], 0, 0, [])
  }

  predicate PendingSubBlock(b: seq<byte>)
    requires |b| >= 3
  {
    Le16(b, 0) >= SB_IS_COMPRESSED && Pending(b[2..], 0, 0, [])
  }

  /** What comes of decoding: the bytes, unless the stream is malformed; the byte stored behind the room, if
    * any; and whether the byte behind the stream is read. */
  datatype Reading = Reading(out: Option<seq<byte>>, past: Option<byte>, peeks: bool)

  function Prepend(p: seq<byte>, r: Reading): Reading {
    r.(out := match r.out
              case None => None
              case Some(q) => Some(p + q))
  }

  /** A further sub-block can be decoded into the room. */
  predicate Opens(src: seq<byte>, room: int) {
    |src| >= 6 && Le16(src, 0) != 0 && room >= SB_SIZE && SubBlockSize(src) <= |src|
  }

  /** Decode a stream, which is followed by the byte `behind`, with room for so many bytes; after a sub-block
    * one byte too long the room can be -1. The stream ends at its last byte, at a zero header or when the
    * room is used up exactly. */
  function Stream(src: seq<byte>, behind: byte, room: int): (r: Reading)
    requires room >= -1
    ensures r.out.Some? ==> |r.out.value| <= room + 1
    decreases |src|
  {
    if src == [] then Reading(Some([]), None, false)
    else if |src| == 1 then Reading(if src[0] == 0 == behind || room == 0 then Some([]) else None, None, true)
    else if Le16(src, 0) == 0 || room == 0 then Reading(Some([]), None, false)
    else if !Opens(src, room) then Reading(None, None, false)
    else
      var n := SubBlockSize(src);
      var b := src[..n];
      var past := if room == SB_SIZE then PastSubBlock(b) else None;
      var peeks := n == |src| && PendingSubBlock(b);
      match SubBlock(b)
      case None => Reading(None, past, peeks)
      case Some(p) =>
        var r := Stream(src[n..], behind, room - |p|);
        Prepend(p, Reading(r.out, if past.Some? then past else r.past, peeks || r.peeks))
  }

  /** b is a complete encoding of data: its header gives its own size and it decodes to data,
    * zero-filled to a full sub-block. */
  ghost predicate Encodes(b: seq<byte>, data: seq<byte>) {
    && 4 <= |b| <= SB_SIZE + 2
    && Le16(b, 0) != 0
    && SubBlockSize(b) == |b|
    && SubBlock(b) == Some(Pad(data))
  }
}
