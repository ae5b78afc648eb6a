/** The LZNT1 compressor: hash chains, lazy matching and the encoding of one 4096-byte block. */
module Lznt1Compress {
  import opened Bytes
  import opened Lznt1Format
  import opened Lznt1Tokens

  const NICE_MATCH_LEN: int := 18
  const MAX_SEARCH_DEPTH: nat := 24
  const HASH_SIZE: nat := 16384
  const HASH_MULTIPLIER: nat := 0x1E35A7BD

  /** The multiplicative hash of the next three bytes (32-bit product, 14 high bits kept). */
  function Hash(b0: byte, b1: byte, b2: byte): (h: nat)
    ensures h < HASH_SIZE
  {
    var str := (b0 as int) + 256 * (b1 as int) + 65536 * (b2 as int);
    (str * HASH_MULTIPLIER) % 0x1_0000_0000 / 0x4_0000
  }

  ghost predicate AllZero(text: seq<byte>) {
    forall k :: 0 <= k < |text| ==> text[k] == 0
  }

  /** The match finder's state. The chains are linked through positions: head gives the latest
    * position for a hash, prev the one before it. prev starts uninitialised; `inserted` are the
    * positions for which it has been set. */
  class CompressContext {
    const inbuf: seq<byte>
    const bufsize: nat
    const head: array<int>
    const prev: array<int>
    var size: int
    var rel: int
    var mxsz: int
    ghost var inserted: set<nat>

    constructor (inbuf: seq<byte>)
      requires |inbuf| <= SB_SIZE
      ensures Chains(0) && this.inbuf == inbuf
      ensures fresh(head) && fresh(prev)
      ensures mxsz == 4098
      ensures forall h :: 0 <= h < HASH_SIZE ==> head[h] == -1
    {
      this.inbuf := inbuf;
      bufsize := |inbuf|;
      head := new int[HASH_SIZE](_ => -1);
      prev := new int[SB_SIZE];
      mxsz := 4098;
      inserted := {};
    }

    /** Every chain runs through inserted positions only, strictly downwards, below n. */
    ghost predicate Chains(n: nat)
      reads this, head, prev
    {
      && bufsize == |inbuf| <= SB_SIZE && head != prev
      && head.Length == HASH_SIZE && prev.Length == SB_SIZE
      && (forall h :: 0 <= h < HASH_SIZE ==> head[h] == -1 || head[h] in inserted)
      && (forall p :: p in inserted ==>
            0 <= p < n && p < bufsize && (prev[p] == -1 || (prev[p] in inserted && prev[p] < p)))
    }

    /** Insert the sequence at position i into its chain and return the previous chain head. */
    method Insert(i: nat) returns (cur: int)
      requires Chains(i) && i + 3 < bufsize
      modifies head, prev, `inserted
      ensures Chains(i + 1)
      ensures inserted == old(inserted) + {i}
      ensures cur == old(head[Hash(inbuf[i], inbuf[i + 1], inbuf[i + 2])])
      ensures cur == -1 || (cur in old(inserted) && cur < i)
      ensures head[Hash(inbuf[i], inbuf[i + 1], inbuf[i + 2])] == i
    {
      var hash := Hash(inbuf[i], inbuf[i + 1], inbuf[i + 2]);
      hide Hash;
      cur := head[hash];
      prev[i] := cur;
      head[hash] := i;
      inserted := inserted + {i};
    }

    /** Is the candidate at `cur` longer than bestLen? The far bytes are compared first. */
    method Longer(cur: nat, i: nat, bestLen: nat) returns (b: bool)
      requires cur < i && 2 <= bestLen && i + bestLen < |inbuf|
      ensures b <==> MatchAt(inbuf, i, i - cur, bestLen + 1)
    {
      if inbuf[cur + bestLen] != inbuf[i + bestLen]
         || inbuf[cur + bestLen - 1] != inbuf[i + bestLen - 1]
         || inbuf[cur] != inbuf[i] {
        return false;
      }
      var len := 1;
      while len < bestLen - 1
        invariant 1 <= len <= bestLen
        invariant len <= bestLen - 1
        invariant MatchAt(inbuf, i, i - cur, len)
      {
        if inbuf[cur + len] != inbuf[i + len] {
          return false;
        }
        len := len + 1;
      }
      return true;
    }

    /** Extend a match known to be longer than bestLen as far as it goes, up to maxLen; `nice` tells
      * whether niceLen was reached, which ends the search. */
    method Extend(cur: nat, i: nat, bestLen: nat, niceLen: nat, maxLen: nat) returns (len: nat, nice: bool)
      requires cur < i && 2 <= bestLen < maxLen && niceLen <= maxLen && i + maxLen <= |inbuf|
      requires MatchAt(inbuf, i, i - cur, bestLen + 1)
      ensures bestLen < len <= maxLen && MatchAt(inbuf, i, i - cur, len)
      ensures len < maxLen ==> inbuf[cur + len] != inbuf[i + len]
      ensures nice <==> len >= niceLen
    {
      len := bestLen + 1;
      while len < niceLen && inbuf[cur + len] == inbuf[i + len]
        invariant bestLen < len <= maxLen && MatchAt(inbuf, i, i - cur, len)
      {
        len := len + 1;
      }
      nice := len >= niceLen;
      if nice {
        while len < maxLen && inbuf[cur + len] == inbuf[i + len]
          invariant bestLen < len <= maxLen && MatchAt(inbuf, i, i - cur, len) && len >= niceLen
        {
          len := len + 1;
        }
      }
    }

    /** Follow a chain, at most MAX_SEARCH_DEPTH links, for matches longer than minLen at position i. */
    method Search(i: nat, first: int, minLen: nat, maxLen: nat) returns (bestLen: nat, bestPos: nat)
      requires Chains(i + 1) && 2 <= minLen < maxLen && i + maxLen <= bufsize
      requires first == -1 || (first in inserted && first < i)
      ensures bestLen >= minLen
      ensures bestLen == minLen ==> bestPos == i
      ensures bestLen > minLen ==> LongestFrom(i, bestPos, bestLen, maxLen)
      ensures first == -1 ==> bestLen == minLen
      ensures 0 <= first && MatchAt(inbuf, i, i - first, maxLen) ==> bestLen == maxLen && bestPos == first
    {
      var niceLen: nat := Min(NICE_MATCH_LEN, maxLen);
      var depth, nice := MAX_SEARCH_DEPTH, false;
      var cur := first;
      bestLen, bestPos := minLen, i;
      while !nice && cur >= 0 && depth > 0
        invariant cur == -1 || (cur in inserted && cur < i)
        invariant bestLen >= minLen && (bestLen == minLen ==> bestPos == i)
        invariant bestLen > minLen ==> LongestFrom(i, bestPos, bestLen, maxLen)
        invariant !nice ==> bestLen < maxLen
        invariant first == -1 ==> bestLen == minLen && cur == -1
        invariant 0 <= first && MatchAt(inbuf, i, i - first, maxLen) ==>
                    if nice then bestLen == maxLen && bestPos == first
                    else cur == first && bestLen == minLen && depth > 0
        decreases depth
      {
        depth := depth - 1;
        var longer := Longer(cur, i, bestLen);
        assert cur == first && MatchAt(inbuf, i, i - first, maxLen) ==> longer;
        if longer {
          bestPos := cur;
          bestLen, nice := Extend(cur, i, bestLen, niceLen, maxLen);
          assert cur == first && MatchAt(inbuf, i, i - first, maxLen) ==> bestLen == maxLen;
        }
        if !nice {
          cur := prev[cur];
        }
      }
    }

    /** An earlier position matching for len bytes and no more (unless maxLen stops it). */
    ghost predicate LongestFrom(i: nat, pos: nat, len: nat, maxLen: nat)
      requires |inbuf| <= SB_SIZE
    {
      && pos < i && len <= maxLen && i + maxLen <= |inbuf|
      && MatchAt(inbuf, i, i - pos, len)
      && (len < maxLen ==> inbuf[pos + len] != inbuf[i + len])
    }

    /** The longest match possible at position i: bounded by the text and by the length bits. */
    function MaxLen(i: nat): (n: nat)
      requires i <= bufsize && mxsz >= 0
      reads this
    {
      Min(bufsize - i, mxsz)
    }

    /** Search the chain for a match at position i longer than minLen. A match found cannot be
      * extended; when none is found, size is minLen and rel is 0. */
    method BestMatch(i: nat, minLen: nat)
      requires Chains(i) && i <= bufsize && minLen >= 2 && mxsz >= 4
      modifies head, prev, `inserted, `size, `rel
      ensures Chains(i + 1) && size >= minLen
      ensures size == minLen ==> rel == 0
      ensures size > minLen ==> 0 <= i + rel && LongestFrom(i, i + rel, size, MaxLen(i))
      ensures MaxLen(i) < 4 || minLen >= MaxLen(i) ==> size == minLen
      ensures bufsize - i >= 4 ==>
                var h := Hash(inbuf[i], inbuf[i + 1], inbuf[i + 2]);
                head[h] == i
                && (old(head[h]) == -1 ==> size == minLen)
                && (minLen < MaxLen(i) && 0 <= old(head[h]) < i
                    && MatchAt(inbuf, i, i - old(head[h]), MaxLen(i)) ==>
                      size == MaxLen(i) && rel == old(head[h]) - i)
    {
      hide Hash;
      var maxLen: nat := MaxLen(i);
      var bestLen: nat, bestPos: nat := minLen, i;
      if maxLen >= 4 {
        var cur := Insert(i);
        if bestLen < maxLen {
          bestLen, bestPos := Search(i, cur, minLen, maxLen);
        }
      }
      size := bestLen;
      rel := bestPos - i;
    }

    /** Advance the match finder without searching. */
    method SkipPosition(i: nat)
      requires Chains(i)
      modifies head, prev, `inserted
      ensures Chains(i + 1)
    {
      if bufsize >= i + 4 {
        var _ := Insert(i);
      }
    }
  }
}
