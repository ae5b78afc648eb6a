/** A compression set: the sub-blocks of one compression block, compressed one after the other,
  * closed by a zero header and rounded up to whole clusters. */
module CompressionSet {
  import opened Bytes
  import opened Lznt1Format
  import opened Lznt1Compress
  import opened Lznt1Block
  import opened Lznt1Decompress

  /** The text filled with zeroes to whole sub-blocks. */
  function Padded(text: seq<byte>): (r: seq<byte>)
    ensures |r| % SB_SIZE == 0 && text <= r
    ensures |r| < |text| + SB_SIZE
    ensures forall k :: |text| <= k < |r| ==> r[k] == 0
  {
    var tail := |text| % SB_SIZE;
    if tail == 0 then text else text + Zeros(SB_SIZE - tail)
  }

  /** What a reader with room for `room` bytes gets from sub-blocks for `text` followed by `rest`. */
  ghost function Continued(text: seq<byte>, rest: seq<byte>, behind: byte, room: nat): Reading {
    if room <= |text| then Whole(text[..room]) else Prepend(text, Stream(rest, behind, room - |text|))
  }

  /** These bytes are decoded, and no byte outside the room or the stream is touched. */
  function Whole(text: seq<byte>): Reading {
    Reading(Some(text), None, false)
  }

  /** s is a series of sub-blocks that stands for `text`, whatever follows it and however many
    * sub-blocks the reader has room for. */
  ghost predicate EncodesSet(s: seq<byte>, text: seq<byte>)
    requires |text| % SB_SIZE == 0
  {
    forall rest: seq<byte>, behind: byte, room: nat :: room % SB_SIZE == 0 && |rest| >= 2 ==>
      Stream(s + rest, behind, room) == Continued(text, rest, behind, room)
  }

  lemma EncodesNothing()
    ensures EncodesSet([], [])
  {
    hide Stream;
    forall rest: seq<byte>, behind: byte, room: nat | room % SB_SIZE == 0 && |rest| >= 2
      ensures Stream([] + rest, behind, room) == Continued([], rest, behind, room)
    {
      assert [] + rest == rest;
      PrependNothing(Stream(rest, behind, room));
      StreamNoRoom(rest, behind);
    }
  }

  lemma PrependNothing(r: Reading)
    ensures Prepend([], r) == r
  {
    if r.out.Some? {
      assert [] + r.out.value == r.out.value;
    }
  }

  lemma StreamNoRoom(rest: seq<byte>, behind: byte)
    requires |rest| >= 2
    ensures Stream(rest, behind, 0) == Whole([])
  {
  }

  lemma StreamBlock(b: seq<byte>, text: seq<byte>, rest: seq<byte>, behind: byte, room: nat)
    requires |text| <= SB_SIZE && Encodes(b, text) && |rest| >= 2 && room >= SB_SIZE
    ensures Stream(b + rest, behind, room) == Prepend(Pad(text), Stream(rest, behind, room - SB_SIZE))
  {
    hide SubBlock, Pad, PastSubBlock, PendingSubBlock;
    var src := b + rest;
    assert Le16(src, 0) == Le16(b, 0);
    assert src[..|b|] == b && src[|b|..] == rest;
    EncodedInside(b, text);
  }

  lemma EncodedInside(b: seq<byte>, text: seq<byte>)
    requires |text| <= SB_SIZE && Encodes(b, text)
    ensures PastSubBlock(b) == None && !PendingSubBlock(b) && |Pad(text)| == SB_SIZE
  {
    hide Tokens, Past, Pending;
    if Le16(b, 0) >= SB_IS_COMPRESSED {
      DecodedInside(b[2..], 0, 0, []);
    }
  }

  /** One more encoded block extends the set. */
  lemma EncodesMore(s: seq<byte>, text: seq<byte>, b: seq<byte>, block: seq<byte>)
    requires |text| % SB_SIZE == 0 && EncodesSet(s, text) && |block| <= SB_SIZE && Encodes(b, block)
    ensures |Pad(block)| == SB_SIZE && (|text| + SB_SIZE) % SB_SIZE == 0
    ensures EncodesSet(s + b, text + Pad(block))
  {
    hide Encodes, Pad, Stream;
    var more := text + Pad(block);
    forall rest: seq<byte>, behind: byte, room: nat | room % SB_SIZE == 0 && |rest| >= 2
      ensures Stream(s + b + rest, behind, room) == Continued(more, rest, behind, room)
    {
      var next: seq<byte> := b + rest;
      assert s + b + rest == s + next;
      assert Stream(s + next, behind, room) == Continued(text, next, behind, room);
      if room <= |text| {
        assert more[..room] == text[..room];
      } else {
        StreamBlock(b, block, rest, behind, room - |text|);
        PrependTwice(text, Pad(block), Stream(rest, behind, room - |more|));
        if room <= |more| {
          StreamNoRoom(rest, behind);
          assert more[..room] == more == more + [];
        }
      }
    }
  }

  /** A set closed by a zero header decodes to its text, cut to the room there is. */
  lemma ClosedSet(s: seq<byte>, text: seq<byte>, tail: seq<byte>, behind: byte, room: nat)
    requires |text| % SB_SIZE == 0 && EncodesSet(s, text) && room % SB_SIZE == 0
    ensures Stream(s + [0, 0] + tail, behind, room) == Whole(text[..Min(room, |text|)])
  {
    var rest: seq<byte> := [0, 0] + tail;
    assert s + [0, 0] + tail == s + rest;
    assert Stream(s + rest, behind, room) == Continued(text, rest, behind, room);
    if room > |text| {
      assert Le16(rest, 0) == 0;
      assert text + [] == text == text[..|text|];
    }
  }

  lemma PaddedMore(text: seq<byte>, p: nat, q: nat)
    requires p % SB_SIZE == 0 && p <= q <= |text| && q <= p + SB_SIZE
    ensures Padded(text[..q]) == if q == p then text[..p] else text[..p] + Pad(text[p..q])
    ensures Padded(text[..p]) == text[..p]
  {
    if q > p {
      assert text[..q] == text[..p] + text[p..q];
      if q < p + SB_SIZE {
        assert q % SB_SIZE == q - p;
      } else {
        assert q % SB_SIZE == 0;
      }
    }
  }

  /** What can be read back from what CompSet hands to the device: with anything after it, and any
    * number of sub-blocks wanted, the text that was compressed, and no byte outside is touched. */
  ghost predicate Readable(image: seq<byte>, text: seq<byte>) {
    forall tail: seq<byte>, behind: byte, room: nat :: room % SB_SIZE == 0 ==>
      Stream(image + tail, behind, room) == Whole(Padded(text)[..Min(room, |Padded(text)|)])
  }

  lemma ClosedReadable(s: seq<byte>, text: seq<byte>, n: nat)
    requires EncodesSet(s, Padded(text))
    ensures Readable(s + [0, 0] + Zeros(n), text)
  {
    hide Stream, Padded;
    var image := s + [0, 0] + Zeros(n);
    forall tail: seq<byte>, behind: byte, room: nat | room % SB_SIZE == 0
      ensures Stream(image + tail, behind, room) == Whole(Padded(text)[..Min(room, |Padded(text)|)])
    {
      assert image + tail == s + [0, 0] + (Zeros(n) + tail);
      ClosedSet(s, Padded(text), Zeros(n) + tail, behind, room);
    }
  }

  /** Texts whose compressed form is recognised as all zeroes: all zeroes, and the last sub-block not
    * three or four bytes long. */
  ghost predicate SeenAsZero(text: seq<byte>) {
    AllZero(text) && |text| % SB_SIZE != 3 && |text| % SB_SIZE != 4
  }

  /** A block that its compressed form shows to be zero. */
  ghost predicate ZeroBlock(block: seq<byte>) {
    AllZero(block) && |block| != 3 && |block| != 4
  }

  lemma SeenAsZeroMore(text: seq<byte>, p: nat, q: nat)
    requires p % SB_SIZE == 0 && p < q <= |text| && q <= p + SB_SIZE && (q == |text| || q == p + SB_SIZE)
    ensures SeenAsZero(text[..q]) <==> SeenAsZero(text[..p]) && ZeroBlock(text[p..q])
    ensures SeenAsZero(text) && text[..q] != text ==> SeenAsZero(text[..q])
  {
    assert text[..q] == text[..p] + text[p..q];
    if AllZero(text[..q]) {
      forall k | 0 <= k < q - p ensures text[p..q][k] == 0 {
        assert text[..q][p + k] == 0;
      }
    }
    if q < p + SB_SIZE {
      assert q % SB_SIZE == q - p;
    } else {
      assert q % SB_SIZE == 0;
    }
  }

  lemma AddBlock(prefix: seq<byte>, text: seq<byte>, p: nat, q: nat, b: seq<byte>)
    requires p % SB_SIZE == 0 && p < q <= |text| && q <= p + SB_SIZE
    requires EncodesSet(prefix, Padded(text[..p])) && Encodes(b, text[p..q])
    ensures EncodesSet(prefix + b, Padded(text[..q]))
  {
    hide EncodesSet, Padded, Encodes, Pad;
    PaddedMore(text, p, q);
    EncodesMore(prefix, text[..p], b, text[p..q]);
  }

  /** `body` encodes the first p bytes of the text; `zero` tells whether they were seen to be zeroes. */
  ghost predicate Encoded(body: seq<byte>, text: seq<byte>, p: nat, zero: bool) {
    && p <= |text| && (p == |text| || p % SB_SIZE == 0)
    && EncodesSet(body, Padded(text[..p]))
    && (zero <==> SeenAsZero(text[..p]))
  }

  lemma StartSet(text: seq<byte>)
    ensures Encoded([], text, 0, true)
  {
    EncodesNothing();
    assert Padded(text[..0]) == [];
  }

  /** Compress the block inbuf[p..q] after what outbuf holds already. */
  method AddNext(inbuf: seq<byte>, p: nat, q: nat, outbuf: array<byte>, compsz: nat, ghost zeroSoFar: bool)
    returns (sz: nat, zero: bool)
    requires p < q == (if p + 4096 < |inbuf| then p + 4096 else |inbuf|)
    requires compsz + 4100 <= outbuf.Length && Encoded(outbuf[..compsz], inbuf, p, zeroSoFar)
    modifies outbuf
    ensures 4 <= sz <= 4098 && (zero ==> sz <= 6)
    ensures Encoded(outbuf[..compsz + sz], inbuf, q, zeroSoFar && zero)
  {
    hide EncodesSet, SeenAsZero, AllZero, Encodes, Padded;
    ghost var before := outbuf[..];
    sz := CompressBlock(inbuf[p..q], outbuf, compsz);
    zero := ZeroMarker(outbuf[compsz..compsz + sz]);
    ghost var b: seq<byte> := outbuf[compsz..compsz + sz];
    AddBlock(before[..compsz], inbuf, p, q, b);
    SeenAsZeroMore(inbuf, p, q);
    assert outbuf[..compsz] == before[..compsz];
    assert outbuf[..compsz + sz] == outbuf[..compsz] + b;
  }

  datatype SetResult =
    | Written(size: nat)   // bytes written, whole clusters
    | AllZeroes            // nothing written
    | NotCompressible      // nothing written
    | WriteError           // the device did not take it all

  /** A compression block is made of whole clusters and of whole sub-blocks. */
  predicate Geometry(blockSize: nat, clusterSize: nat) {
    clusterSize >= 1 && blockSize % clusterSize == 0 && blockSize % SB_SIZE == 0
  }

  predicate WholeClusters(size: nat, clusterSize: nat) {
    clusterSize >= 1 && size % clusterSize == 0
  }

  /** Two extra bytes per sub-block and two more may be needed. */
  function BufferSize(blockSize: nat): nat {
    blockSize + 2 * (blockSize / SB_SIZE) + 2
  }

  /** Close the set, round it up to whole clusters and write it. */
  method WriteSet(outbuf: array<byte>, compsz0: nat, clusterSize: nat, blockSize: nat, deviceOk: bool,
                  ghost text: seq<byte>)
    returns (r: SetResult, image: seq<byte>)
    requires Geometry(blockSize, clusterSize) && blockSize <= outbuf.Length
    requires compsz0 + clusterSize + 2 <= blockSize && EncodesSet(outbuf[..compsz0], Padded(text))
    modifies outbuf
    ensures r == if deviceOk then Written(|image|) else WriteError
    ensures Readable(image, text) && WholeClusters(|image|, clusterSize) && 0 < |image| <= blockSize - clusterSize
  {
    hide EncodesSet, Readable, Padded, RoundUp, Geometry, WholeClusters;
    ghost var body: seq<byte> := outbuf[..compsz0];
    outbuf[compsz0], outbuf[compsz0 + 1] := 0, 0;
    var compsz := compsz0 + 2;
    RoundedFits(compsz, clusterSize, blockSize);
    var rounded := RoundUp(compsz, clusterSize);
    forall k | compsz <= k < rounded {
      outbuf[k] := 0;
    }
    image := outbuf[..rounded];
    assert image == body + [0, 0] + Zeros(rounded - compsz);
    ClosedReadable(body, text, rounded - compsz);
    r := if deviceOk then Written(rounded) else WriteError;
  }

  /** Round up to a full cluster. */
  function RoundUp(size: nat, clusterSize: nat): (r: int)
    requires clusterSize >= 1
  {
    (size - 1) / clusterSize * clusterSize + clusterSize
  }

  lemma RoundUpMultiple(size: nat, clusterSize: nat) returns (q: nat)
    requires size >= 1 && clusterSize >= 1
    ensures RoundUp(size, clusterSize) == (q + 1) * clusterSize
    ensures q * clusterSize < size <= (q + 1) * clusterSize
  {
    q := (size - 1) / clusterSize;
    assert size - 1 == q * clusterSize + (size - 1) % clusterSize;
    assert (q + 1) * clusterSize == q * clusterSize + clusterSize;
  }

  lemma RoundedFits(compsz: nat, clusterSize: nat, blockSize: nat)
    requires Geometry(blockSize, clusterSize) && 1 <= compsz <= blockSize - clusterSize
    ensures clusterSize >= 1
    ensures compsz <= RoundUp(compsz, clusterSize) <= blockSize - clusterSize
    ensures WholeClusters(RoundUp(compsz, clusterSize), clusterSize)
  {
    var q := RoundUpMultiple(compsz, clusterSize);
    var n := blockSize / clusterSize;
    Unpack(q + 1, 0, clusterSize);
    hide RoundUp;
    assert blockSize == n * clusterSize;
    assert (n - 1) * clusterSize == blockSize - clusterSize;
    Multiples(q + 1 - (n - 1), clusterSize);
    assert (q + 1 - (n - 1)) * clusterSize == (q + 1) * clusterSize - (n - 1) * clusterSize;
    assert (q + 1) * clusterSize == q * clusterSize + clusterSize;
  }

  /** After n blocks: how far the text was read and how much was written at most. */
  ghost predicate Counted(n: nat, p: nat, compsz: nat, zero: bool) {
    p == 4096 * n && compsz <= 4098 * n && (zero ==> compsz <= 6 * n)
  }

  lemma RoomForNext(n: nat, p: nat, compsz: nat, zero: bool, blockSize: nat, clusterSize: nat)
    requires Geometry(blockSize, clusterSize) && Counted(n, p, compsz, zero) && p < blockSize
    ensures compsz + 4100 <= BufferSize(blockSize) && p + 4096 <= blockSize
  {
    var blocks := blockSize / SB_SIZE;
    assert blockSize == 4096 * blocks;
    assert n + 1 <= blocks;
  }

  lemma CountNext(n: nat, p: nat, compsz: nat, zero: bool, sz: nat, zero': bool)
    requires Counted(n, p, compsz, zero) && sz <= 4098 && (zero' ==> sz <= 6)
    ensures Counted(n + 1, p + 4096, compsz + sz, zero && zero')
  {
  }

  /** Zeroes always leave a cluster, when there are two. */
  lemma ZeroesFit(n: nat, p: nat, compsz: nat, blockSize: nat, clusterSize: nat)
    requires n > 0 && Counted(n, p, compsz, true) && p <= blockSize && 2 * clusterSize <= blockSize
    ensures compsz + clusterSize + 2 <= blockSize
  {
  }

  /** Compress block after block until the end, or until all the clusters (or more) are needed. */
  method CompressAll(blockSize: nat, clusterSize: nat, inbuf: seq<byte>, outbuf: array<byte>)
    returns (fail: bool, allZeroes: bool, compsz: nat, ghost done: nat)
    requires Geometry(blockSize, clusterSize) && |inbuf| <= blockSize && outbuf.Length == BufferSize(blockSize)
    modifies outbuf
    ensures compsz <= outbuf.Length && done <= |inbuf| && (!fail ==> done == |inbuf|)
    ensures Encoded(outbuf[..compsz], inbuf, done, allZeroes)
    ensures fail ==> compsz + clusterSize + 2 > blockSize
    ensures !fail ==> compsz + clusterSize + 2 <= blockSize || allZeroes
    ensures fail && 2 * clusterSize <= blockSize ==> !allZeroes
  {
    ghost var n := 0;
    fail, allZeroes := false, true;
    var p := 0;
    compsz, done := 0, 0;
    StartSet(inbuf);
    assert outbuf[..0] == [];
    assert Counted(n, p, compsz, allZeroes);
    hide *;
    while p < |inbuf| && !fail
      invariant done == (if p < |inbuf| then p else |inbuf|) && compsz <= outbuf.Length
      invariant Counted(n, p, compsz, allZeroes) && p <= blockSize
      invariant Encoded(outbuf[..compsz], inbuf, done, allZeroes)
      invariant fail ==> compsz + clusterSize + 2 > blockSize && n > 0
      invariant !fail ==> compsz + clusterSize + 2 <= blockSize || n == 0
      invariant n == 0 ==> allZeroes
      decreases |inbuf| - p
    {
      RoomForNext(n, p, compsz, allZeroes, blockSize, clusterSize);
      var q := if p + 4096 < |inbuf| then p + 4096 else |inbuf|;
      var sz, zero := AddNext(inbuf, p, q, outbuf, compsz, allZeroes);
      CountNext(n, p, compsz, allZeroes, sz, zero);
      fail := compsz + sz + clusterSize + 2 > blockSize;
      allZeroes := allZeroes && zero;
      compsz := compsz + sz;
      done := q;
      p, n := p + 4096, n + 1;
    }
    if allZeroes && n > 0 && 2 * clusterSize <= blockSize {
      ZeroesFit(n, p, compsz, blockSize, clusterSize);
    }
  }

  lemma BufferHolds(blockSize: nat, clusterSize: nat)
    requires Geometry(blockSize, clusterSize)
    ensures clusterSize >= 1 && blockSize <= BufferSize(blockSize)
  {
  }

  /** Compress a set of blocks and write it to the device, which takes all of it if deviceOk. `image`
    * is what the device was given. `prefix` (ghost) encodes the first `done` bytes of the text, all of
    * it unless the set is not compressible. */
  method CompSet(blockSize: nat, clusterSize: nat, inbuf: seq<byte>, deviceOk: bool)
    returns (r: SetResult, image: seq<byte>, ghost prefix: seq<byte>, ghost done: nat)
    requires Geometry(blockSize, clusterSize) && |inbuf| <= blockSize
    ensures r.Written? || r.WriteError? ==>
              Readable(image, inbuf) && WholeClusters(|image|, clusterSize) && 0 < |image| <= blockSize - clusterSize
    ensures r.Written? ==> deviceOk && r.size == |image|
    ensures r.AllZeroes? ==> image == []
    ensures r.WriteError? ==> !deviceOk
    ensures r.AllZeroes? ==> SeenAsZero(inbuf)
    ensures SeenAsZero(inbuf) && 2 * clusterSize <= blockSize ==> r.AllZeroes?
    ensures done <= |inbuf| && EncodesSet(prefix, Padded(inbuf[..done]))
    ensures if r.NotCompressible? then |prefix| + clusterSize + 2 > blockSize else done == |inbuf|
  {
    hide BufferSize, EncodesSet, Readable, SeenAsZero, Padded, Geometry, WholeClusters, Encoded;
    BufferHolds(blockSize, clusterSize);
    var outbuf := new byte[BufferSize(blockSize)];
    var fail, allZeroes, compsz;
    fail, allZeroes, compsz, done := CompressAll(blockSize, clusterSize, inbuf, outbuf);
    prefix, image := outbuf[..compsz], [];
    EndSet(prefix, inbuf, done, allZeroes);
    if !fail && !allZeroes {
      r, image := WriteSet(outbuf, compsz, clusterSize, blockSize, deviceOk, inbuf);
    } else {
      r := if fail then NotCompressible else AllZeroes;
    }
  }

  lemma EndSet(body: seq<byte>, text: seq<byte>, p: nat, zero: bool)
    requires Encoded(body, text, p, zero)
    ensures EncodesSet(body, Padded(text[..p]))
    ensures SeenAsZero(text) ==> zero
    ensures p == |text| ==> text[..p] == text && (zero <==> SeenAsZero(text))
  {
    hide EncodesSet;
    if SeenAsZero(text) {
      ZeroPrefix(text, p);
    }
    if p == |text| {
      assert text[..p] == text;
    }
  }

  lemma ZeroPrefix(text: seq<byte>, q: nat)
    requires q <= |text| && (q == |text| || q % SB_SIZE == 0) && SeenAsZero(text)
    ensures SeenAsZero(text[..q])
  {
    if q == |text| {
      assert text[..q] == text;
    }
  }

  /** Not every text of zeroes is recognised: three or four zero bytes, and such a tail behind n whole
    * sub-blocks of zeroes, are not. */
  method ShortZeroTail(blockSize: nat, clusterSize: nat, n: nat, tail: nat, deviceOk: bool) returns (r: SetResult)
    requires Geometry(blockSize, clusterSize) && n * SB_SIZE + tail <= blockSize && 3 <= tail <= 4
    ensures !r.AllZeroes?
  {
    var text := Zeros(n * SB_SIZE + tail);
    var image;
    ghost var prefix, done;
    r, image, prefix, done := CompSet(blockSize, clusterSize, text, deviceOk);
    assert |text| % SB_SIZE == tail;
  }

  /** The law the compressor exists for: a block that is compressed, closed by a zero header and
    * decompressed comes back, filled with zeroes to 4096 bytes. No byte outside the two buffers is needed. */
  method RoundTrip(text: seq<byte>) returns (back: seq<byte>)
    requires 1 <= |text| <= SB_SIZE
    ensures back == Pad(text)
  {
    hide Encodes, Pad, Stream;
    var outbuf := new byte[SB_SIZE + 4];
    var size := CompressBlock(text, outbuf, 0);
    var stream: seq<byte> := outbuf[0..size] + [0, 0];
    var dest := new byte[SB_SIZE];
    StreamBlock(outbuf[0..size], text, [0, 0], 0, SB_SIZE);
    StreamNoRoom([0, 0], 0);
    assert Pad(text) + [] == Pad(text);
    assert stream[..|stream|] == stream;
    var res, peeked := Decompress(dest, SB_SIZE, stream, |stream|, 0);
    back := dest[..];
  }

  /** The same for a compression set of any size, read back whole from what was written. */
  method SetRoundTrip(blockSize: nat, clusterSize: nat, text: seq<byte>, tail: seq<byte>)
    returns (r: SetResult, res: int, back: seq<byte>)
    requires Geometry(blockSize, clusterSize) && |text| <= blockSize
    ensures r.Written? ==> res == 0 && |back| == blockSize && text <= back
  {
    hide Readable, EncodesSet, SeenAsZero;
    var image;
    ghost var prefix, done;
    r, image, prefix, done := CompSet(blockSize, clusterSize, text, true);
    res, back := -1, [];
    if r.Written? {
      var dest := new byte[blockSize];
      ReadBack(image, text, tail, blockSize);
      var mem := image + tail;
      assert mem[..|mem|] == image + tail;
      ghost var peeked;
      res, peeked := Decompress(dest, blockSize, mem, |mem|, 0);
      back := dest[..];
    }
  }

  lemma ReadBack(image: seq<byte>, text: seq<byte>, tail: seq<byte>, room: nat)
    requires Readable(image, text) && room % SB_SIZE == 0 && |text| <= room
    ensures Stream(image + tail, 0, room) == Whole(Padded(text)) && |Padded(text)| <= room
  {
    hide Stream;
    assert Stream(image + tail, 0, room) == Whole(Padded(text)[..Min(room, |Padded(text)|)]);
    var n := |Padded(text)| / SB_SIZE;
    assert |Padded(text)| <= room;
    assert Padded(text)[..|Padded(text)|] == Padded(text);
  }
}
