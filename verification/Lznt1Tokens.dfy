/** How the compressor's choices (literals and phrases) become bytes, and why the functional
  * decoder of Lznt1Format turns those bytes back into the text they came from. */
module Lznt1Tokens {
  import opened Bytes
  import opened Lznt1Format

  datatype Token =
    | Literal(b: byte)
    | Phrase(back: nat, len: nat)
  {
    function Length(): (n: nat)
    {
      if Literal? then 1 else len
    }

    /** The type bit: 0 for a symbol token, 1 for a phrase token. */
    function TypeBit(): (n: nat) {
      if Literal? then 0 else 1
    }
  }

  /** The 16-bit code of a phrase at position p. */
  function PhraseCode(back: nat, len: nat, p: nat): (pt: nat)
    requires back >= 1 && len >= 3 && 1 <= p <= SB_SIZE
  {
    Packed(back - 1, LengthSpan(p), len - 3)
  }

  function Packed(high: nat, span: nat, low: nat): (pt: nat) {
    high * span + low
  }

  lemma PhraseCodeInverse(back: nat, len: nat, p: nat)
    requires back >= 1 && 1 <= p <= SB_SIZE && 3 <= len <= LengthSpan(p) + 2
    ensures PhraseBack(PhraseCode(back, len, p), p) == back
    ensures PhraseLen(PhraseCode(back, len, p), p) == len
  {
    Unpack(back - 1, len - 3, LengthSpan(p));
  }

  /** There is a true match of `len` bytes `back` places before p (it may overlap p). */
  ghost predicate MatchAt(text: seq<byte>, p: nat, back: nat, len: nat) {
    && 1 <= back <= p
    && p + len <= |text|
    && forall u :: p <= u < p + len ==> text[u] == text[u - back]
  }

  /** t is a correct way to code the text at position p. */
  ghost predicate Codes(t: Token, text: seq<byte>, p: nat)
    requires |text| <= SB_SIZE
  {
    p < |text| &&
    match t
    case Literal(b) => text[p] == b
    case Phrase(back, len) =>
      MatchAt(text, p, back, len) && 3 <= len <= LengthSpan(p) + 2 && PhraseCode(back, len, p) < 65536
  }

  function TokenBytes(t: Token, text: seq<byte>, p: nat): (s: seq<byte>)
    requires |text| <= SB_SIZE && Codes(t, text, p)
  {
    match t
    case Literal(b) => [b]
    case Phrase(back, len) => var pt := PhraseCode(back, len, p); [pt % 256, pt / 256]
  }

  /** The tokens of one group code text[p..q]. */
  ghost predicate Covers(ts: seq<Token>, text: seq<byte>, p: nat, q: nat)
    requires |text| <= SB_SIZE
  {
    if ts == [] then p == q && q <= |text|
    else Codes(ts[0], text, p) && Covers(ts[1..], text, p + ts[0].Length(), q)
  }

  ghost function Payload(ts: seq<Token>, text: seq<byte>, p: nat, q: nat): (s: seq<byte>)
    requires |text| <= SB_SIZE && Covers(ts, text, p, q)
  {
    if ts == [] then [] else
    TokenBytes(ts[0], text, p) + Payload(ts[1..], text, p + ts[0].Length(), q)
  }

  function Tag(ts: seq<Token>): (tag: nat)
    ensures tag < Pow2(|ts|)
  {
    if ts == [] then 0 else ts[0].TypeBit() + 2 * Tag(ts[1..])
  }

  /** Adding a token at the end of a group appends its bytes and sets the next type bit. */
  lemma {:induction false} AppendToken(ts: seq<Token>, t: Token, text: seq<byte>, p: nat, q: nat)
    requires |text| <= SB_SIZE && Covers(ts, text, p, q) && Codes(t, text, q)
    ensures Covers(ts + [t], text, p, q + t.Length())
    ensures Payload(ts + [t], text, p, q + t.Length()) == Payload(ts, text, p, q) + TokenBytes(t, text, q)
    ensures Tag(ts + [t]) == Tag(ts) + t.TypeBit() * Pow2(|ts|)
    decreases |ts|
  {
    hide PhraseCode, LengthSpan;
    if ts == [] {
      assert [t][1..] == [];
      assert [] + [t] == [t];
      assert Covers([], text, q + t.Length(), q + t.Length());
      assert Tag([t]) == t.TypeBit() + 2 * Tag([]);
      assert Payload([t], text, p, q + t.Length()) == TokenBytes(t, text, p);
    } else {
      AppendToken(ts[1..], t, text, p + ts[0].Length(), q);
      assert (ts + [t])[0] == ts[0];
      assert (ts + [t])[1..] == ts[1..] + [t];
      if t.TypeBit() == 1 {
        assert Pow2(|ts|) == 2 * Pow2(|ts[1..]|);
      }
    }
  }

  /** One token's bytes are consumed by exactly one step of the decoder, which extends the output
    * to the end of the text the token codes. */
  lemma DecodeToken(t: Token, text: seq<byte>, p: nat, rest: seq<byte>, tag: nat, left: nat)
    requires |text| <= SB_SIZE && Codes(t, text, p)
    requires left > 0 && tag % 2 == t.TypeBit()
    ensures p + t.Length() <= |text|
    ensures Tokens(TokenBytes(t, text, p) + rest, tag, left, text[..p])
            == Tokens(rest, tag / 2, left - 1, text[..p + t.Length()])
  {
    hide PhraseCode, PhraseBack, PhraseLen, LengthSpan;
    var src := TokenBytes(t, text, p) + rest;
    match t
    case Literal(b) =>
      assert src[1..] == rest;
      assert text[..p] + [b] == text[..p + 1];
    case Phrase(back, len) =>
      assert Le16(src, 0) == PhraseCode(back, len, p);
      assert src[2..] == rest;
      PhraseCodeInverse(back, len, p);
      CopyBackUnique(text[..p], back, len, text[..p + len]);
  }

  /** A whole group's payload, read with its own tag, decodes to the text it covers. `extra` is
    * what the tag holds beyond the group's own bits (zero for the last, partial group). */
  lemma {:induction false} DecodePayload(ts: seq<Token>, text: seq<byte>, p: nat, q: nat, rest: seq<byte>, left: nat)
    requires |text| <= SB_SIZE && Covers(ts, text, p, q)
    requires |ts| <= left
    ensures p <= q <= |text|
    ensures Tokens(Payload(ts, text, p, q) + rest, Tag(ts), left, text[..p])
            == Tokens(rest, 0, left - |ts|, text[..q])
    decreases |ts|
  {
    hide Tokens, Codes, TokenBytes, Pow2;
    if ts == [] {
      assert [] + rest == rest;
    } else {
      var p' := p + ts[0].Length();
      var tail := Payload(ts[1..], text, p', q) + rest;
      DecodeToken(ts[0], text, p, tail, Tag(ts), left);
      DecodePayload(ts[1..], text, p', q, rest, left - 1);
      assert Payload(ts, text, p, q) + rest == TokenBytes(ts[0], text, p) + tail;
    }
  }

  /** Everything already emitted, whatever follows it, takes the decoder to text[..p] with no
    * group open. */
  ghost predicate DecodesUpTo(done: seq<byte>, text: seq<byte>, p: nat)
    requires p <= |text|
  {
    forall s :: Tokens(done + s, 0, 0, []) == Tokens(s, 0, 0, text[..p])
  }

  lemma NothingEmitted(text: seq<byte>)
    ensures DecodesUpTo([], text, 0)
  {
    forall s ensures Tokens([] + s, 0, 0, []) == Tokens(s, 0, 0, text[..0]) {
      assert [] + s == s;
    }
  }

  lemma ReadGroup(ts: seq<Token>, text: seq<byte>, p: nat, q: nat, rest: seq<byte>)
    requires |text| <= SB_SIZE && p <= |text| && (|ts| == 8 || (|ts| < 8 && rest == []))
    requires Covers(ts, text, p, q) && Tag(ts) < 256
    ensures p <= q <= |text|
    ensures Tokens([Tag(ts)] + Payload(ts, text, p, q) + rest, 0, 0, text[..p]) == Tokens(rest, 0, 0, text[..q])
  {
    hide Covers, Payload, Tag, Pow2, PhraseBack, PhraseLen;
    var payload := Payload(ts, text, p, q);
    DecodePayload(ts, text, p, q, rest, 8);
    var next := [Tag(ts)] + payload + rest;
    assert next[0] == Tag(ts) && next[1..] == payload + rest;
  }

  /** A full group extends what has been emitted. */
  lemma CloseGroup(done: seq<byte>, ts: seq<Token>, text: seq<byte>, p: nat, q: nat)
    requires |text| <= SB_SIZE && p <= |text| && DecodesUpTo(done, text, p)
    requires |ts| == 8 && Covers(ts, text, p, q) && Tag(ts) < 256
    ensures p <= q <= |text|
    ensures DecodesUpTo(done + [Tag(ts)] + Payload(ts, text, p, q), text, q)
  {
    hide Covers, Payload, Tag, Tokens;
    var payload := Payload(ts, text, p, q);
    ReadGroup(ts, text, p, q, []);
    forall s ensures Tokens(done + [Tag(ts)] + payload + s, 0, 0, []) == Tokens(s, 0, 0, text[..q]) {
      ReadGroup(ts, text, p, q, s);
      assert done + [Tag(ts)] + payload + s == done + ([Tag(ts)] + payload + s);
    }
  }

  /** The last group may be partial; with it the emitted bytes decode to text[..q]. */
  lemma CloseLastGroup(done: seq<byte>, ts: seq<Token>, text: seq<byte>, p: nat, q: nat)
    requires |text| <= SB_SIZE && p <= |text| && DecodesUpTo(done, text, p)
    requires |ts| <= 8 && Covers(ts, text, p, q) && Tag(ts) < 256
    ensures p <= q <= |text|
    ensures Tokens(done + [Tag(ts)] + Payload(ts, text, p, q), 0, 0, []) == Some(text[..q])
  {
    hide Covers, Payload, Tag;
    var group := [Tag(ts)] + Payload(ts, text, p, q);
    ReadGroup(ts, text, p, q, []);
    assert group + [] == group;
    assert done + [Tag(ts)] + Payload(ts, text, p, q) == done + group;
    assert Tokens(done + group, 0, 0, []) == Tokens(group, 0, 0, text[..p]);
  }

  /** With no group open the emitted bytes decode to text[..q] as they stand. */
  lemma CloseEmpty(done: seq<byte>, text: seq<byte>, q: nat)
    requires q <= |text| && DecodesUpTo(done, text, q)
    ensures Tokens(done, 0, 0, []) == Some(text[..q])
  {
    assert done + [] == done;
    assert Tokens(done + [], 0, 0, []) == Tokens([], 0, 0, text[..q]);
  }
}
