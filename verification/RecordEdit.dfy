/** Changing the attributes of an MFT record in place: making room, adding, resizing, and undoing. */
module RecordEdit {
  import opened Bytes
  import opened Seqs
  import opened Collation
  import opened MftRecord
  import opened AttributeRecords

  const FILLED_MARGIN: nat := 120     // room an index root leaves for an attribute list

  datatype Resized = Fine | NoSpace | Filled

  /** Whether the attribute can be resident and whether the base inode has an attribute list, and then
    * whether that takes the new entry. */
  datatype Circumstances = Circumstances(canBeResident: bool, hasList: bool, listTakes: bool)

  /** What the attribute looks like after resizing: what it keeps is all but its length. */
  ghost predicate ResizedTo(c: seq<byte>, was: seq<byte>, n: nat) {
    && |c| == n
    && (n >= 8 && |was| >= 8 ==> Le32(c, 4) == n)
    && forall i :: 0 <= i < n && i < |was| && !(4 <= i < 8) ==> c[i] == was[i]
  }

  const AT_ATTRIBUTE_LIST: nat := 0x20

  /** What to add: without a name the attribute is unnamed; without a value it is all zeros. */
  datatype Addition = Addition(kind: nat, name: Option<seq<char16>>, nameLength: byte, value: Option<seq<byte>>,
                               size: nat, flags: nat)

  /** The name and the value have their lengths, and the sizes add up in 32 bits. */
  ghost predicate WellMade(x: Addition) {
    && (x.name.Some? ==> |x.name.value| == x.nameLength) && (x.value.Some? ==> |x.value.value| == x.size)
    && x.kind <= AT_END && x.size <= 0x7fffffff && x.flags < 65536
  }

  function QueryOf(x: Addition): Query {
    Query(x.kind, x.name, x.value)
  }

  function HeaderOf(x: Addition, instance: nat): Header {
    HeaderFor(x.kind, x.nameLength, x.size, x.flags, instance)
  }

  /** c is the attribute to add. */
  ghost predicate IsAdded(c: seq<byte>, x: Addition, instance: nat)
    requires WellMade(x)
  {
    Carries(c, HeaderOf(x, instance), if x.name.Some? then x.name.value else [], if x.value.Some? then x.value.value
            else Zeros(x.size))
  }

  /** Why the attribute is not added to a record with these attributes, if anything stands against it. */
  function Refusal(up: seq<char16>, x: Addition, cs: seq<seq<byte>>, inUse: nat, room: nat, c: Circumstances)
    : Option<Error>
    requires Attributes(cs)
  {
    if x.name.None? && x.nameLength > 0 then Some(EINVAL)
    else if !c.canBeResident then Some(EPERM)
    else if Search(up, QueryOf(x), cs, 0).Present? then Some(EEXIST)
    else if inUse + HeaderOf(x, 0).length > room then Some(ENOSPC)
    else if x.kind != AT_ATTRIBUTE_LIST && c.hasList && !c.listTakes then Some(ListFailed)
    else None
  }

  /** The added attribute is where a later search for it ends. */
  lemma AddedIsFound(up: seq<char16>, x: Addition, cs: seq<seq<byte>>, k: nat, c: seq<byte>, instance: nat)
    requires WellMade(x) && IsAdded(c, x, instance) && x.kind != AT_UNUSED && (x.name.None? ==> x.nameLength == 0)
    requires Attributes(cs) && k <= |cs| && Search(up, QueryOf(x), cs, 0) == Absent(k) && Attributes(With(cs, k, c))
    ensures Search(up, QueryOf(x), With(cs, k, c), 0) == Present(k)
  {
    hide Attribute, HasHeader;
    var q, now := QueryOf(x), With(cs, k, c);
    AddedIsHit(up, x, c, instance);
    hide Judge;
    PassedBy(up, q, now, k, 0);
  }

  lemma AddedIsHit(up: seq<char16>, x: Addition, c: seq<byte>, instance: nat)
    requires WellMade(x) && IsAdded(c, x, instance) && x.kind != AT_UNUSED && (x.name.None? ==> x.nameLength == 0)
    ensures Judge(up, QueryOf(x), c) == Hit
    ensures KeyOf(c) == Wanted(QueryOf(x), if x.value.Some? then x.value.value else Zeros(x.size))
  {
    var value := ValueOf(c);
    CompareSigns(value, value);
  }

  lemma {:induction false} PassedBy(up: seq<char16>, q: Query, cs: seq<seq<byte>>, k: nat, i: nat)
    requires Attributes(cs) && i <= k < |cs|
    requires forall j :: i <= j < k ==> Judge(up, q, cs[j]) == Pass
    ensures Judge(up, q, cs[k]) == Hit ==> Search(up, q, cs, i) == Present(k)
    decreases k - i
  {
    if i < k {
      PassedBy(up, q, cs, k, i + 1);
    }
  }

  /** Whether the record is sorted after the attribute has been put where the search ended. */
  ghost predicate OrderKept(up: seq<char16>, x: Addition, cs: seq<seq<byte>>, k: nat, now: seq<seq<byte>>)
    requires Attributes(cs) && k <= |cs|
  {
    && Attributes(now)
    && (Sorted(up, cs) && x.kind != AT_UNUSED ==>
          (Sorted(up, now) <==>
           x.name.Some? || x.value.None? || !NameInTheWay(cs, x.kind, x.value.value)))
  }

  lemma OrderIsKept(up: seq<char16>, x: Addition, cs: seq<seq<byte>>, k: nat, c: seq<byte>, instance: nat)
    requires WellMade(x) && IsAdded(c, x, instance) && (x.name.None? ==> x.nameLength == 0)
    requires Attributes(cs) && k <= |cs| && Search(up, QueryOf(x), cs, 0) == Absent(k)
    ensures OrderKept(up, x, cs, k, With(cs, k, c))
  {
    hide Judge, Sorted, HasHeader, NamedOfKind;
    InsertedAttributes(cs, k, c);
    if Sorted(up, cs) && x.kind != AT_UNUSED {
      var value := if x.value.Some? then x.value.value else Zeros(x.size);
      AddedIsHit(up, x, c, instance);
      if x.name.Some? {
        StopKeepsOrder(up, QueryOf(x), cs, k, c, value);
      } else {
        NamelessKeepsOrder(up, QueryOf(x), cs, k, c, value);
      }
    }
  }

  /** A resident attribute with a name of one character, or none, and a value of one byte. */
  function Small(kind: nat, name: seq<char16>, value: byte): seq<byte>
    requires |name| <= 1
  {
    HeaderBytes(HeaderFor(kind, |name|, 1, 0, 0)) + [0]
    + (if name == [] then []
       else [Digit(name[0], 1), Digit(name[0], 256), 0, 0, 0, 0, 0, 0]) + [value, 0, 0, 0, 0, 0, 0, 0]
  }

  lemma SmallIs(kind: nat, name: seq<char16>, value: byte)
    requires |name| <= 1 && kind < AT_END
    ensures Attribute(Small(kind, name, value)) && KeyOf(Small(kind, name, value)) == Key(kind, name, [value])
  {
    hide HeaderBytes;
    var h := HeaderFor(kind, |name|, 1, 0, 0);
    var c := Small(kind, name, value);
    assert c[..RESIDENT_END - 1] == HeaderBytes(h);
    assert c[h.valueOffset..h.valueOffset + 1] == [value];
    if |name| == 1 {
      Digits16(name[0]);
      assert name == [name[0]];
    }
    hide Attribute;
    CarriesIs(c, kind, 1, 0, 0, name, [value]);
    assert TypeOf(c) == kind;
  }

  /** Without a name the search can stop where the unnamed attribute breaks the order: the value 9 goes behind
    * a named attribute with the value 5. */
  lemma NamelessBreaksOrder(up: seq<char16>, kind: nat)
    requires AT_UNUSED < kind < AT_END
    ensures var q, named, unnamed := Query(kind, None, Some([9])), Small(kind, [65], 5), Small(kind, [], 9);
            && Attribute(named) && Attribute(unnamed) && KeyOf(unnamed) == Wanted(q, [9])
            && Attributes([named]) && Sorted(up, [named]) && Search(up, q, [named], 0) == Absent(1)
            && Attributes([named, unnamed]) && !Sorted(up, [named, unnamed])
  {
    hide Small, Attribute, TypeOf, NameOf, ValueOf;
    SmallIs(kind, [65], 5);
    SmallIs(kind, [], 9);
    var q, cs, unnamed := Query(kind, None, Some([9])), [Small(kind, [65], 5)], Small(kind, [], 9);
    assert Compare([9], [5]) == 1;
    assert Judge(up, q, cs[0]) == Pass;
    assert Search(up, q, cs, 1) == Absent(1);
    NamelessKeepsOrder(up, q, cs, 1, unnamed, [9]);
    assert NamedOfKind(cs[0], kind);
    CompareSigns([9], [5]);
    assert SmallerUpTo(cs, kind, [9], 0);
    assert With(cs, 1, unnamed) == [Small(kind, [65], 5), unnamed];
  }

  /** Moving up, writing in the gap and moving down again leaves the part in use as it was. */
  lemma Undone(s0: seq<byte>, s1: seq<byte>, s2: seq<byte>, s3: seq<byte>, pos: nat, size: nat, n: nat)
    requires pos + size + n <= |s0| && |s1| == |s0| && |s2| == |s0|
    requires s1 == Moved(s0, pos + size, pos, n)
    requires OnlyIn(s2, s1, pos, pos + size)
    requires s3 == Moved(s2, pos, pos + size, n)
    ensures Alike(s3, s0, pos + n)
  {
  }

  ghost predicate Alike(s: seq<byte>, was: seq<byte>, n: nat) {
    |s| == |was| && n <= |s| && forall i :: 0 <= i < n ==> s[i] == was[i]
  }

  class Record {
    const m: array<byte>
    const first: nat                  // where the attributes start
    var inUse: nat                    // bytes_in_use
    var nextInstance: nat             // next_attr_instance

    constructor (m: array<byte>, first: nat, inUse: nat, nextInstance: nat)
      ensures this.m == m && this.first == first && this.inUse == inUse && this.nextInstance == nextInstance
    {
      this.m, this.first, this.inUse, this.nextInstance := m, first, inUse, nextInstance;
    }

    /** The record has these attributes. */
    ghost predicate Has(cs: seq<seq<byte>>)
      reads this, m
    {
      Laid(m[..], first, inUse, cs)
    }

    method MoveBytes(dst: nat, src: nat, n: nat)
      requires dst + n <= m.Length && src + n <= m.Length
      modifies m
      ensures m[..] == Moved(old(m[..]), dst, src, n)
    {
      ghost var was := m[..];
      var copy := m[src..src + n];
      for i := 0 to n
        invariant forall j :: dst <= j < dst + i ==> m[j] == copy[j - dst]
        invariant OnlyIn(m[..], was, dst, dst + i)
      {
        m[dst + i] := copy[i];
      }
      Copied(was, m[..], copy, dst, src, n);
    }

    /** ntfs_make_room_for_attr: a gap of the size, up to a multiple of 8, in front of attribute k. */
    method MakeRoom(pos: nat, size: nat, ghost cs: seq<seq<byte>>, ghost k: nat) returns (error: Option<Error>)
      requires Has(cs) && k <= |cs| && pos == first + Offset(cs, k)
      modifies this`inUse, m
      ensures error == if Up8(size) > 0 && old(inUse) + Up8(size) > m.Length then Some(ENOSPC) else None
      ensures error.Some? ==> inUse == old(inUse) && m[..] == old(m[..])
      ensures error.None? ==>
                && inUse == old(inUse) + Up8(size)
                && Gap(m[..], first, inUse, cs, k, Up8(size))
                && m[..] == Moved(old(m[..]), pos + Up8(size), pos, old(inUse) - pos)
    {
      hide *;
      HasIs(cs);
      var up := Up8(size);
      LaidCut(m[..], first, inUse, cs, k);
      GapRoom(m[..], first, inUse, cs, k, 0);
      if pos > inUse - 8 {
        return Some(EINVAL);
      }
      if up == 0 {
        MovedNowhere(m[..], pos, inUse - pos);
        return None;
      }
      if inUse + up > m.Length || pos + up > m.Length {
        return Some(ENOSPC);
      }
      Reserve(pos, 0, up, cs, k);
      error := None;
    }

    /** The bytes of the record as ntfs_attr_record_resize moves them. */
    method Reserve(a: nat, size: nat, up: nat, ghost cs: seq<seq<byte>>, ghost k: nat)
      requires k <= |cs| && Gap(m[..], first, inUse, cs, k, size) && a == first + Offset(cs, k)
      requires inUse - size + up <= m.Length
      modifies this`inUse, m
      ensures inUse == old(inUse) - size + up
      ensures Gap(m[..], first, inUse, cs, k, up)
      ensures old(inUse) - a - size >= 0 && m[..] == Moved(old(m[..]), a + up, a + size, old(inUse) - a - size)
    {
      hide *;
      GapRoom(m[..], first, inUse, cs, k, size);
      ghost var was := m[..];
      MoveBytes(a + up, a + size, inUse - a - size);
      GapMoved(was, m[..], first, inUse, cs, k, size, up);
      inUse := inUse - size + up;
    }

    /** ntfs_attr_record_resize: attribute k gets a new size, or is taken out when that is 0. */
    method Resize(a: nat, newSize: nat, ghost cs: seq<seq<byte>>, ghost k: nat)
      returns (r: Resized, ghost now: seq<seq<byte>>)
      requires Has(cs) && k < |cs| && a == first + Offset(cs, k) && Attribute(cs[k])
      requires m.Length <= 0xffffffff
      modifies this`inUse, m
      ensures r == NoSpace <==> old(inUse) - |cs[k]| + Up8(newSize) > m.Length && Up8(newSize) != |cs[k]|
      ensures r == Filled ==> TypeOf(cs[k]) == AT_INDEX_ROOT && Up8(newSize) > |cs[k]|
      ensures r == Filled <==> r != NoSpace && TypeOf(cs[k]) == AT_INDEX_ROOT && Up8(newSize) > |cs[k]|
                               && old(inUse) - |cs[k]| + Up8(newSize) + FILLED_MARGIN > m.Length
                               && m.Length >= old(inUse) + FILLED_MARGIN
      ensures r != Fine ==> inUse == old(inUse) && m[..] == old(m[..]) && now == cs
      ensures Has(now)
      ensures r == Fine ==> inUse == old(inUse) - |cs[k]| + Up8(newSize)
      ensures r == Fine && Up8(newSize) == 0 ==>
                && now == Without(cs, k) && old(inUse) - a - |cs[k]| >= 0
                && m[..] == Moved(old(m[..]), a, a + |cs[k]|, old(inUse) - a - |cs[k]|)
      ensures r == Fine && Up8(newSize) > 0 ==>
                |now| == |cs| && now == cs[k := now[k]] && ResizedTo(now[k], cs[k], Up8(newSize))
    {
      hide *;
      HasIs(cs);
      now := cs;
      var up := Up8(newSize);
      ghost var rest := Without(cs, k);
      TakenOut(m[..], first, inUse, cs, k);
      GapRoom(m[..], first, inUse, rest, k, |cs[k]|);
      FieldsOf(m[..], a, cs[k]);
      var oldSize, attrSize, kind := inUse, Le32(m[..], a + 4), Le32(m[..], a);
      if up == attrSize {
        SameSize(cs[k]);
        return Fine, cs;
      }
      var newUse := oldSize - attrSize + up;
      if newUse > m.Length {
        return NoSpace, cs;
      }
      if kind == AT_INDEX_ROOT && up > attrSize && newUse + FILLED_MARGIN > m.Length
        && oldSize + FILLED_MARGIN <= m.Length {
        return Filled, cs;
      }
      ghost var was := m[..];
      Reserve(a, attrSize, up, rest, k);
      ghost var moved := m[..];
      GapRoom(moved, first, inUse, rest, k, up);
      if up >= 8 {
        PutLength(m, a + 4, up);
        now := cs[k := m[..][a..a + up]];
        Replaced(was, moved, m[..], first, inUse, cs, k, a, up, oldSize - a - attrSize, now);
      } else {
        LaidCut(m[..], first, inUse, rest, k);
        now := rest;
      }
      HasIs(now);
      r := Fine;
    }

    /** Undoes the insertion of attribute k. */
    method TakeBack(a: nat, ghost cs: seq<seq<byte>>, ghost k: nat, ghost chunk: seq<byte>)
      requires k <= |cs| && Has(With(cs, k, chunk)) && Attribute(chunk) && a == first + Offset(cs, k)
      requires m.Length <= 0xffffffff && inUse <= m.Length
      modifies this`inUse, m
      ensures Has(cs) && inUse == old(inUse) - |chunk| && nextInstance == old(nextInstance)
      ensures old(inUse) - a - |chunk| >= 0 && m[..] == Moved(old(m[..]), a, a + |chunk|, old(inUse) - a - |chunk|)
    {
      hide *;
      WithoutAgain(cs, k, chunk);
      NoSize();
      var undone, rest := Resize(a, 0, With(cs, k, chunk), k);
      assert rest == cs;
    }

    /** ntfs_resident_attr_record_add. */
    method AddResident(up: seq<char16>, x: Addition, c: Circumstances, ghost cs: seq<seq<byte>>)
        returns (r: Outcome, ghost now: seq<seq<byte>>)
      requires Has(cs) && Attributes(cs) && WellMade(x) && nextInstance < 65536 && m.Length <= 0x7fffffff
      requires c.canBeResident ==> x.kind < AT_END
      requires x.value.Some? ==> forall k :: 0 <= k < |cs| && TypeOf(cs[k]) == x.kind ==> Resident(cs[k])
      modifies this`inUse, this`nextInstance, m
      ensures Has(now)
      ensures match Refusal(up, x, cs, old(inUse), m.Length, c)
              case Some(e) => r == Failed(e) && now == cs && inUse == old(inUse) && Alike(m[..], old(m[..]), inUse)
              case None =>
                var k := Search(up, QueryOf(x), cs, 0).k;
                && r == Done(first + Offset(cs, k))
                && |now| == |cs| + 1 && now == With(cs, k, now[k])
                && IsAdded(now[k], x, old(nextInstance)) && OrderKept(up, x, cs, k, now)
                && inUse == old(inUse) + |now[k]|
      ensures r.Failed? && r.error != ListFailed ==> m[..] == old(m[..])
      ensures nextInstance == if r.Failed? && r.error != ListFailed then old(nextInstance)
              else (old(nextInstance) + 1) % 65536
    {
      hide *;
      HasIs(cs);
      now := cs;
      var bytes := m[..];
      InUse(bytes, first, inUse, cs, 0);
      WholeAlike(bytes, bytes, inUse);
      Refuses(up, x, cs, inUse, m.Length, c);
      var instance, use := nextInstance, inUse;
      Sizes(x, instance);
      if x.name.None? && x.nameLength > 0 {
        return Failed(EINVAL), cs;
      }
      if !c.canBeResident {
        return Failed(EPERM), cs;
      }
      StartOffset(bytes, first, inUse, cs);
      var found := Find(up, QueryOf(x), bytes, first, inUse, first, cs, 0);
      if found.Here? {
        return Failed(EEXIST), cs;
      }
      if found.Corrupt? {
        return Failed(EIO), cs;
      }
      var a := found.offset;
      ghost var k := Search(up, QueryOf(x), cs, 0).k;
      var h := HeaderOf(x, instance);
      var error := MakeRoom(a, h.length, cs, k);
      if error.Some? {
        HasIs(cs);
        return Failed(error.value), cs;
      }
      ghost var moved := m[..];
      GapRoom(moved, first, inUse, cs, k, h.length);
      PutAttribute(m, a, x.kind, if x.name.Some? then x.name.value else [], x.value, x.size, x.flags, instance);
      ghost var written, chunk := m[..], m[..][a..a + h.length];
      Added(up, moved, written, first, inUse, cs, k, x, instance, chunk);
      now := With(cs, k, chunk);
      nextInstance := (nextInstance + 1) % 65536;
      HasIs(now);
      if x.kind != AT_ATTRIBUTE_LIST && c.hasList {
        if !c.listTakes {
          TakeBack(a, cs, k, chunk);
          Undone(bytes, moved, written, m[..], a, h.length, use - a);
          return Failed(ListFailed), cs;
        }
      }
      r := Done(a);
    }

    lemma HasIs(cs: seq<seq<byte>>)
      ensures Has(cs) <==> Laid(m[..], first, inUse, cs)
    {
    }
  }

  lemma Copied(was: seq<byte>, now: seq<byte>, copy: seq<byte>, dst: nat, src: nat, n: nat)
    requires dst + n <= |was| && src + n <= |was| && copy == was[src..src + n]
    requires OnlyIn(now, was, dst, dst + n) && forall j :: dst <= j < dst + n ==> now[j] == copy[j - dst]
    ensures now == Moved(was, dst, src, n)
  {
    var moved := Moved(was, dst, src, n);
    forall j | 0 <= j < |was| ensures now[j] == moved[j] {
      if dst <= j < dst + n {
        assert now[j] == copy[j - dst];
      }
    }
  }

  lemma MovedNowhere(s: seq<byte>, at: nat, n: nat)
    requires at + n <= |s|
    ensures Moved(s, at, at, n) == s
  {
  }

  lemma Refuses(up: seq<char16>, x: Addition, cs: seq<seq<byte>>, inUse: nat, room: nat, c: Circumstances)
    requires Attributes(cs)
    ensures var r, p := Refusal(up, x, cs, inUse, room, c), Search(up, QueryOf(x), cs, 0);
            if x.name.None? && x.nameLength > 0 then r == Some(EINVAL)
            else if !c.canBeResident then r == Some(EPERM)
            else if p.Present? then r == Some(EEXIST)
            else if inUse + HeaderOf(x, 0).length > room then r == Some(ENOSPC)
            else if x.kind != AT_ATTRIBUTE_LIST && c.hasList && !c.listTakes then r == Some(ListFailed)
            else r == None
  {
  }

  /** What is known of the addition's query and header. */
  lemma Sizes(x: Addition, instance: nat)
    requires WellMade(x) && instance < 65536
    ensures QueryOf(x).kind == x.kind <= AT_END && QueryOf(x).name == x.name && QueryOf(x).value == x.value
    ensures var h := HeaderOf(x, instance);
            && h == HeaderFor(x.kind, x.nameLength, x.size, x.flags, instance)
            && h.length == HeaderOf(x, 0).length && Up8(h.length) == h.length >= 8
            && (x.kind < AT_END ==> Fits(h))
    ensures x.name.Some? ==> |x.name.value| == x.nameLength
    ensures x.value.Some? ==> |x.value.value| == x.size
  {
    HeaderSizes(x.kind, x.nameLength, x.size, x.flags, instance);
  }

  /** The attribute is in its place. */
  lemma Added(up: seq<char16>, moved: seq<byte>, written: seq<byte>, first: nat, inUse: nat, cs: seq<seq<byte>>, k: nat,
              x: Addition, instance: nat, chunk: seq<byte>)
    requires WellMade(x) && (x.name.None? ==> x.nameLength == 0) && Attributes(cs) && k <= |cs|
    requires Search(up, QueryOf(x), cs, 0) == Absent(k)
    requires var h := HeaderOf(x, instance);
             && Gap(moved, first, inUse, cs, k, h.length)
             && first + Offset(cs, k) + h.length <= |written|
             && chunk == written[first + Offset(cs, k)..first + Offset(cs, k) + h.length]
             && OnlyIn(written, moved, first + Offset(cs, k), first + Offset(cs, k) + h.length)
             && Carries(chunk, h, if x.name.Some? then x.name.value else [], if x.value.Some? then x.value.value
                        else Zeros(x.size))
    ensures Laid(written, first, inUse, With(cs, k, chunk)) && Attribute(chunk)
            && |chunk| == HeaderOf(x, instance).length
    ensures IsAdded(chunk, x, instance) && OrderKept(up, x, cs, k, With(cs, k, chunk))
  {
    hide Laid, Gap, Offset, OnlyIn, Attribute, HasHeader, OrderKept, NameOf, ValueOf, HeaderOf;
    GapKept(moved, written, first, inUse, cs, k, |chunk|);
    GapFilled(written, first, inUse, cs, k, chunk);
    OrderIsKept(up, x, cs, k, chunk, instance);
  }

  lemma NoSize()
    ensures Up8(0) == 0
  {
  }

  lemma WholeAlike(s: seq<byte>, was: seq<byte>, n: nat)
    requires s == was && n <= |s|
    ensures Alike(s, was, n)
  {
  }

  lemma StartOffset(s: seq<byte>, first: nat, inUse: nat, cs: seq<seq<byte>>)
    requires Laid(s, first, inUse, cs) && Attributes(cs)
    ensures Offset(cs, 0) == 0 && AttributeRecords.Holds(s, first, inUse, cs)
  {
    assert cs[..0] == [];
  }

  lemma WithoutAgain(cs: seq<seq<byte>>, k: nat, c: seq<byte>)
    requires k <= |cs|
    ensures Without(With(cs, k, c), k) == cs
    ensures Offset(With(cs, k, c), k) == Offset(cs, k)
  {
    assert With(cs, k, c)[..k] == cs[..k];
  }

  method PutLength(m: array<byte>, at: nat, w: nat)
    requires at + 3 < m.Length && w <= 0xffffffff
    modifies m
    ensures Le32(m[..], at) == w && OnlyIn(m[..], old(m[..]), at, at + 4)
  {
    Digits32(w);
    m[at], m[at + 1], m[at + 2], m[at + 3] := Digit(w, 1), Digit(w, 256), Digit(w, 65536), Digit(w, 16777216);
  }

  /** The attribute in the gap, with its new length, is attribute k again. */
  lemma Replaced(was: seq<byte>, moved: seq<byte>, s: seq<byte>, first: nat, inUse: nat, cs: seq<seq<byte>>, k: nat,
                 a: nat, up: nat, n: nat, now: seq<seq<byte>>)
    requires k < |cs| && Attribute(cs[k]) && up >= 8 && |s| == |was| == |moved|
    requires a == first + Offset(Without(cs, k), k) && Gap(moved, first, inUse, Without(cs, k), k, up) && a + up <= |s|
    requires a + |cs[k]| + n <= |was| && a + up + n <= |was| && was[a..a + |cs[k]|] == cs[k]
    requires moved == Moved(was, a + up, a + |cs[k]|, n)
    requires OnlyIn(s, moved, a + 4, a + 8) && Le32(s, a + 4) == up
    requires now == cs[k := s[a..a + up]]
    ensures Laid(s, first, inUse, now) && ResizedTo(now[k], cs[k], up)
  {
    hide Laid, Offset, Gap, OnlyIn, Attribute, Le32, ResizedTo, Moved;
    var c := s[a..a + up];
    GapKeptAt(moved, s, first, inUse, Without(cs, k), k, up, a);
    GapFilled(s, first, inUse, Without(cs, k), k, c);
    assert With(Without(cs, k), k, c) == now;
    ResizedChunk(was, moved, s, a, cs[k], up, n);
  }

  lemma SameSize(c: seq<byte>)
    requires Attribute(c)
    ensures ResizedTo(c, c, |c|)
  {
  }

  lemma GapRoom(s: seq<byte>, first: nat, inUse: nat, cs: seq<seq<byte>>, k: nat, size: nat)
    requires k <= |cs| && Gap(s, first, inUse, cs, k, size)
    ensures first + Offset(cs, k) + size + 8 <= inUse <= |s|
  {
  }

  lemma FieldsOf(s: seq<byte>, a: nat, c: seq<byte>)
    requires Attribute(c) && a + |c| <= |s| && s[a..a + |c|] == c
    ensures |c| >= 24 && Le32(s, a) == TypeOf(c) && Le32(s, a + 4) == |c| && |c| % 8 == 0
  {
    ReadAt(s, a, c);
  }

  lemma GapKeptAt(s: seq<byte>, now: seq<byte>, first: nat, inUse: nat, cs: seq<seq<byte>>, k: nat, size: nat, a: nat)
    requires k <= |cs| && Gap(s, first, inUse, cs, k, size) && a == first + Offset(cs, k) && size >= 8
    requires OnlyIn(now, s, a + 4, a + 8)
    ensures Gap(now, first, inUse, cs, k, size)
  {
    hide Gap;
    assert OnlyIn(now, s, a, a + size);
    GapKept(s, now, first, inUse, cs, k, size);
  }

  /** The record without attribute k has a gap of its size. */
  lemma TakenOut(s: seq<byte>, first: nat, inUse: nat, cs: seq<seq<byte>>, k: nat)
    requires Laid(s, first, inUse, cs) && k < |cs|
    ensures Offset(cs, k) == Offset(Without(cs, k), k)
    ensures Gap(s, first, inUse, Without(cs, k), k, |cs[k]|)
    ensures var a := first + Offset(cs, k); a + |cs[k]| <= |s| && s[a..a + |cs[k]|] == cs[k]
  {
    hide Le32, Flat;
    var rest := Without(cs, k);
    assert rest[..k] == cs[..k] && rest[k..] == cs[k + 1..];
    ChunkAt(s, first, inUse, cs, k);
    FlatCut(cs, k);
    var before, after := Flat(cs[..k]), Flat(cs[k + 1..]);
    SplitBytes(s, first, inUse - 8, before + cs[k], after);
    Middle(s, first, inUse - 8, [], before, cs[k] + after);
    assert [] + before + (cs[k] + after) == before + cs[k] + after;
  }

  lemma ResizedChunk(was: seq<byte>, moved: seq<byte>, s: seq<byte>, a: nat, c: seq<byte>, up: nat, n: nat)
    requires Attribute(c) && a + |c| + n <= |was| && a + up + n <= |was| && was[a..a + |c|] == c && up >= 8
    requires moved == Moved(was, a + up, a + |c|, n) && OnlyIn(s, moved, a + 4, a + 8) && Le32(s, a + 4) == up
    ensures ResizedTo(s[a..a + up], c, up)
  {
    hide Attribute;
    var now := s[a..a + up];
    forall i | 0 <= i < up && i < |c| && !(4 <= i < 8) ensures now[i] == c[i] {
      assert now[i] == s[a + i] == moved[a + i] == was[a + i] == was[a..a + |c|][i];
    }
    assert now[4] == s[a + 4] && now[5] == s[a + 5] && now[6] == s[a + 6] && now[7] == s[a + 7];
  }
}
