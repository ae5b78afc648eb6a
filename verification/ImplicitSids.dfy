/** Mapping user and group ids to SIDs and back: explicitly through a list, or implicitly through a pattern
  * whose last two authorities take up the bits of the id. */
module ImplicitSids {
  import opened Bytes

  type u32 = x: int | 0 <= x < 0x1_0000_0000

  const LOW: int := 0x4000_0000         // 30 bits of an id go into the last authority

  /** sub are the sub-authorities. */
  datatype Sid = Sid(revision: int, authority: int, sub: seq<u32>)

  const ADMIN: Sid := Sid(1, 5, [32, 544])

  /** Can the pattern take up 30 bits, a parity bit included, without overflow? */
  predicate ValidPattern(sid: Sid)
    requires |sid.sub| >= 1
  {
    1000 <= sid.sub[|sid.sub| - 1] <= 0x7fffffff
  }

  /** The pattern with both its last authorities increased. */
  function Built(pattern: Sid, last: u32, carry: int): Sid
    requires |pattern.sub| >= 2
  {
    var n := |pattern.sub|;
    var up: u32 := (pattern.sub[n - 2] + carry) % 0x1_0000_0000;
    pattern.(sub := pattern.sub[n - 1 := last][n - 2 := up])
  }

  /** The SID of an id: users get even offsets from the pattern, groups odd ones. */
  function SidOf(pattern: Sid, id: u32, parity: int): (sid: Sid)
    requires |pattern.sub| >= 2 && ValidPattern(pattern) && 0 <= parity <= 1
  {
    Built(pattern, pattern.sub[|pattern.sub| - 1] + 2 * (id % LOW) + parity, id / LOW)
  }

  /** The id of a SID under a pattern, 0 if the pattern does not match. */
  function IdOf(pattern: Sid, sid: Sid, parity: int): int
    requires |pattern.sub| >= 2
  {
    var n := |pattern.sub|;
    if |sid.sub| != n || sid.sub[n - 1] <= pattern.sub[n - 1]
      || (sid.sub[n - 1] - pattern.sub[n - 1] - parity) % 2 != 0 then 0
    else
      var id := (sid.sub[n - 1] - pattern.sub[n - 1]) / 2 % LOW;
      if sid == Built(pattern, sid.sub[n - 1], 0) then id
      else if sid == Built(pattern, sid.sub[n - 1], 1) then id + LOW
      else if sid == Built(pattern, sid.sub[n - 1], 2) then id + 2 * LOW
      else if sid == Built(pattern, sid.sub[n - 1], 3) then id + 3 * LOW
      else 0
  }

  /** findimplicit: the carry is found by trying. */
  method FindImplicit(xsid: Sid, pattern: Sid, parity: int) returns (xid: int)
    requires |pattern.sub| >= 2 && 0 <= parity <= 1
    ensures xid == IdOf(pattern, xsid, parity)
  {
    var cnt := |pattern.sub|;
    var psid := pattern;
    xid := 0;
    if |xsid.sub| == cnt {
      psid := psid.(sub := psid.sub[cnt - 1 := xsid.sub[cnt - 1]]);
      var xlast, rlast := xsid.sub[cnt - 1], pattern.sub[cnt - 1];
      if xlast > rlast && (xlast + rlast + parity) % 2 == 0 {
        assert psid == Built(pattern, xlast, 0);
        if psid == xsid {
          xid := (xlast - rlast) / 2 % LOW;
        } else {
          var carry, more := 1, true;
          while more
            invariant 1 <= carry <= 4
            invariant psid == Built(pattern, xlast, if more then carry - 1 else if carry < 4 then carry else 3)
            invariant more ==> carry < 4
            invariant forall c :: 0 <= c < carry && c < 4 ==> xsid != Built(pattern, xlast, c)
            invariant !more && carry < 4 ==> psid == xsid
            decreases 5 - carry + if more then 1 else 0
          {
            var uauth: u32 := (psid.sub[cnt - 2] as int + 1) % 0x1_0000_0000;
            CarryOn(pattern, xlast, carry - 1);
            psid := psid.(sub := psid.sub[cnt - 2 := uauth]);
            more := false;
            if psid != xsid {
              carry := carry + 1;
              more := carry < 4;
            }
          }
          if carry < 4 {
            xid := (xlast - rlast) / 2 % LOW + carry * LOW;
          }
        }
      }
    }
  }

  lemma CarryOn(pattern: Sid, last: u32, carry: nat)
    requires |pattern.sub| >= 2
    ensures var n := |pattern.sub|;
            var sid := Built(pattern, last, carry);
            Built(pattern, last, carry + 1) ==
            sid.(sub := sid.sub[n - 2 := (sid.sub[n - 2] as int + 1) % 0x1_0000_0000])
  {
  }

  /** The SID of an id leads back to it, but a user id whose low 30 bits are zero is lost. */
  lemma IdOfSid(pattern: Sid, id: u32, parity: int)
    requires |pattern.sub| >= 2 && ValidPattern(pattern) && 0 <= parity <= 1
    ensures IdOf(pattern, SidOf(pattern, id, parity), parity) == if id % LOW == 0 && parity == 0 then 0 else id
  {
    var n, sid := |pattern.sub|, SidOf(pattern, id, parity);
    var last, carry := sid.sub[n - 1], id / LOW;
    assert (last - pattern.sub[n - 1] - parity) % 2 == 0 && (last - pattern.sub[n - 1]) / 2 == id % LOW;
    assert id == id % LOW + carry * LOW && 0 <= carry < 4;
    forall c | 0 <= c < carry
      ensures Built(pattern, last, c) != sid
    {
      CarriesDiffer(pattern, last, c, carry);
    }
    assert sid == Built(pattern, last, carry);
    hide Built;
  }

  lemma CarriesDiffer(pattern: Sid, last: u32, c: nat, d: nat)
    requires |pattern.sub| >= 2 && c < d < 4
    ensures Built(pattern, last, c) != Built(pattern, last, d)
  {
    var n := |pattern.sub|;
    assert Built(pattern, last, c).sub[n - 2] != Built(pattern, last, d).sub[n - 2];
  }

  /** Two ids have different SIDs, and no user has the SID of a group. */
  lemma SidsDiffer(pattern: Sid, id: u32, id': u32, parity: int, parity': int)
    requires |pattern.sub| >= 2 && ValidPattern(pattern) && 0 <= parity <= 1 && 0 <= parity' <= 1
    ensures SidOf(pattern, id, parity) == SidOf(pattern, id', parity') ==> id == id' && parity == parity'
  {
    var n, s, s' := |pattern.sub|, SidOf(pattern, id, parity), SidOf(pattern, id', parity');
    if s == s' {
      assert s.sub[n - 1] == s'.sub[n - 1];
      assert parity == parity' && id % LOW == id' % LOW;
      var last := s.sub[n - 1];
      assert s == Built(pattern, last, id / LOW) && s' == Built(pattern, last, id' / LOW);
      if id / LOW < id' / LOW {
        CarriesDiffer(pattern, last, id / LOW, id' / LOW);
      } else if id' / LOW < id / LOW {
        CarriesDiffer(pattern, last, id' / LOW, id / LOW);
      }
    }
  }

  /** The id found for a SID has this SID exactly when the last authority is less than 2^31 above the pattern's. */
  lemma SidOfId(pattern: Sid, sid: Sid, parity: int)
    requires |pattern.sub| >= 2 && ValidPattern(pattern) && 0 <= parity <= 1 && IdOf(pattern, sid, parity) != 0
    ensures var id := IdOf(pattern, sid, parity);
            && 0 < id < 0x1_0000_0000 && |sid.sub| == |pattern.sub|
            && (SidOf(pattern, id, parity) == sid <==>
                sid.sub[|sid.sub| - 1] - pattern.sub[|sid.sub| - 1] < 0x8000_0000)
  {
    var n, id := |pattern.sub|, IdOf(pattern, sid, parity);
    var last := sid.sub[n - 1];
    var low := (last - pattern.sub[n - 1]) / 2 % LOW;
    var carry := if sid == Built(pattern, last, 0) then 0 else if sid == Built(pattern, last, 1) then 1
                 else if sid == Built(pattern, last, 2) then 2 else 3;
    assert id == low + carry * LOW && sid == Built(pattern, last, carry);
    assert id % LOW == low && id / LOW == carry;
    assert SidOf(pattern, id, parity).sub[n - 1] == pattern.sub[n - 1] + 2 * low + parity;
    if last - pattern.sub[n - 1] < 0x8000_0000 {
      assert pattern.sub[n - 1] + 2 * low + parity == last;
    } else {
      assert pattern.sub[n - 1] + 2 * low + parity != last;
    }
  }

  // The lists. An entry for id 0 holds the pattern, the entries before it are explicit.

  datatype Mapping = Mapping(xid: u32, sid: Sid)

  predicate Usable(list: seq<Mapping>) {
    forall i :: 0 <= i < |list| && list[i].xid == 0 ==> |list[i].sid.sub| >= 2 && ValidPattern(list[i].sid)
  }

  /** The first entry for this id, or else the pattern, or else the end of the list. */
  function StopId(list: seq<Mapping>, id: u32): (i: nat)
    ensures i <= |list| && (i < |list| ==> list[i].xid == 0 || list[i].xid == id)
    ensures forall j :: 0 <= j < i ==> list[j].xid != 0 && list[j].xid != id
  {
    if list == [] || list[0].xid == 0 || list[0].xid == id then 0 else 1 + StopId(list[1..], id)
  }

  /** The first entry with this SID, or else the pattern, or else the end of the list. */
  function StopSid(list: seq<Mapping>, sid: Sid): (i: nat)
    ensures i <= |list| && (i < |list| ==> list[i].xid == 0 || list[i].sid == sid)
    ensures forall j :: 0 <= j < i ==> list[j].xid != 0 && list[j].sid != sid
  {
    if list == [] || list[0].xid == 0 || list[0].sid == sid then 0 else 1 + StopSid(list[1..], sid)
  }

  function SidFor(list: seq<Mapping>, id: u32, parity: int): Option<Sid>
    requires Usable(list) && 0 <= parity <= 1
  {
    if id == 0 then Some(ADMIN)
    else
      var i := StopId(list, id);
      if i == |list| then None
      else if list[i].xid == 0 then Some(SidOf(list[i].sid, id, parity))
      else Some(list[i].sid)
  }

  function IdFor(list: seq<Mapping>, sid: Sid, parity: int): int
    requires Usable(list)
  {
    var i := StopSid(list, sid);
    if i == |list| then 0
    else if list[i].xid == 0 then IdOf(list[i].sid, sid, parity)
    else list[i].xid
  }

  /** ntfs_find_usid, and with parity 1 ntfs_find_gsid. */
  method FindSid(list: seq<Mapping>, id: u32, parity: int) returns (sid: Option<Sid>)
    requires Usable(list) && 0 <= parity <= 1
    ensures sid == SidFor(list, id, parity)
  {
    if id == 0 {
      return Some(ADMIN);
    }
    var p := 0;
    while p < |list| && list[p].xid != 0 && list[p].xid != id
      invariant 0 <= p <= |list| && StopId(list, id) >= p
    {
      p := p + 1;
    }
    if p < |list| && list[p].xid == 0 {
      var defsid := list[p].sid;
      var cnt := |defsid.sub|;
      var uauth: u32 := (defsid.sub[cnt - 1] as int + 2 * (id % LOW) + parity) % 0x1_0000_0000;
      defsid := defsid.(sub := defsid.sub[cnt - 1 := uauth]);
      if id >= LOW {
        uauth := (defsid.sub[cnt - 2] as int + id / LOW) % 0x1_0000_0000;
        defsid := defsid.(sub := defsid.sub[cnt - 2 := uauth]);
      }
      assert defsid.sub == SidOf(list[p].sid, id, parity).sub;
      sid := Some(defsid);
    } else {
      sid := if p < |list| then Some(list[p].sid) else None;
    }
  }

  /** ntfs_find_user, and with parity 1 ntfs_find_group. */
  method FindId(list: seq<Mapping>, sid: Sid, parity: int) returns (id: int)
    requires Usable(list) && 0 <= parity <= 1
    ensures id == IdFor(list, sid, parity)
  {
    var p := 0;
    while p < |list| && list[p].xid != 0 && list[p].sid != sid
      invariant 0 <= p <= |list| && StopSid(list, sid) >= p
    {
      p := p + 1;
    }
    if p < |list| && list[p].xid == 0 {
      id := FindImplicit(sid, list[p].sid, parity);
    } else {
      id := if p < |list| then list[p].xid else 0;
    }
  }

  /** Is the SID given to the id found again under another id? */
  predicate Shadowed(list: seq<Mapping>, id: u32, sid: Sid) {
    var i := StopSid(list, sid);
    i < |list| && list[i].xid != 0 && list[i].xid != id
  }

  /** Going from an id to its SID and back: this works exactly when no explicit entry claims the SID for another
    * id and the id, if mapped implicitly as a user, has a one among its low 30 bits. */
  lemma BackToId(list: seq<Mapping>, id: u32, parity: int)
    requires Usable(list) && 0 <= parity <= 1 && id != 0 && SidFor(list, id, parity).Some?
    ensures var sid, i := SidFor(list, id, parity).value, StopId(list, id);
            IdFor(list, sid, parity) == id
            <==> !Shadowed(list, id, sid) && (list[i].xid != 0 || parity == 1 || id % LOW != 0)
  {
    var sid, i := SidFor(list, id, parity).value, StopId(list, id);
    var j := StopSid(list, sid);
    if list[i].xid == 0 {
      IdOfSid(list[i].sid, id, parity);
      hide IdOf, SidOf;
      assert j <= i;
    } else {
      hide IdOf, SidOf;
      assert j <= i;
    }
  }
}
