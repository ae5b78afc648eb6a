/** The attributes of an MFT record: their layout in the record and the order they are kept in. */
module MftRecord {
  import opened Bytes
  import opened Collation
  import opened Seqs

  const AT_UNUSED: nat := 0
  const AT_FILE_NAME: nat := 0x30
  const AT_INDEX_ROOT: nat := 0x90
  const AT_END: nat := 0xffffffff
  const RESIDENT_END: nat := 24       // bytes of the header of a resident attribute

  function Le32(s: seq<byte>, at: nat): (w: nat)
    requires at + 3 < |s|
    ensures w <= 0xffffffff
  {
    Le16(s, at) + 65536 * Le16(s, at + 2)
  }

  function Up8(n: nat): (u: nat)
    ensures n <= u < n + 8 && u % 8 == 0
  {
    (n + 7) / 8 * 8
  }

  // ----- one attribute -----

  function TypeOf(c: seq<byte>): nat
    requires |c| >= RESIDENT_END
  {
    Le32(c, 0)
  }

  function LengthOf(c: seq<byte>): nat
    requires |c| >= RESIDENT_END
  {
    Le32(c, 4)
  }

  predicate Resident(c: seq<byte>)
    requires |c| >= RESIDENT_END
  {
    c[8] == 0
  }

  predicate NameInside(c: seq<byte>)
    requires |c| >= RESIDENT_END
  {
    c[9] > 0 ==> Le16(c, 10) + 2 * (c[9] as int) <= |c|
  }

  predicate ValueInside(c: seq<byte>)
    requires |c| >= RESIDENT_END
  {
    Resident(c) ==> Le16(c, 20) + Le32(c, 16) <= |c|
  }

  /** The 16-bit characters of a name. */
  function Chars(s: seq<byte>, at: nat, n: nat): (name: seq<char16>)
    requires at + 2 * n <= |s|
    ensures |name| == n
  {
    seq(n, i requires 0 <= i < n => Le16(s, at + 2 * i))
  }

  function NameOf(c: seq<byte>): (name: seq<char16>)
    requires |c| >= RESIDENT_END && NameInside(c)
  {
    if c[9] == 0 then [] else Chars(c, Le16(c, 10), c[9])
  }

  function ValueOf(c: seq<byte>): (value: seq<byte>)
    requires |c| >= RESIDENT_END && ValueInside(c)
  {
    if Resident(c) then c[Le16(c, 20)..Le16(c, 20) + Le32(c, 16)] else []
  }

  /** The bytes of an attribute record. */
  predicate Attribute(c: seq<byte>) {
    && |c| >= RESIDENT_END && |c| % 8 == 0 && LengthOf(c) == |c| && TypeOf(c) < AT_END
    && NameInside(c) && ValueInside(c)
  }

  // ----- attributes one after the other -----

  function Flat(cs: seq<seq<byte>>): seq<byte> {
    if cs == [] then [] else cs[0] + Flat(cs[1..])
  }

  /** Where attribute k starts behind the first one. */
  function Offset(cs: seq<seq<byte>>, k: nat): nat
    requires k <= |cs|
  {
    |Flat(cs[..k])|
  }

  ghost predicate Attributes(cs: seq<seq<byte>>) {
    forall k :: 0 <= k < |cs| ==> Attribute(cs[k])
  }

  /** The record has the attributes cs from byte first on, and then the terminator of 8 bytes, where the
    * part in use ends. */
  ghost predicate Laid(s: seq<byte>, first: nat, inUse: nat, cs: seq<seq<byte>>) {
    && first + |Flat(cs)| + 8 == inUse <= |s|
    && s[first..inUse - 8] == Flat(cs)
    && Le32(s, inUse - 8) == AT_END
  }

  lemma {:induction false} FlatConcat(a: seq<seq<byte>>, b: seq<seq<byte>>)
    ensures Flat(a + b) == Flat(a) + Flat(b)
  {
    if a == [] {
      assert a + b == b;
    } else {
      assert (a + b)[1..] == a[1..] + b;
      FlatConcat(a[1..], b);
    }
  }

  lemma OneFlat(c: seq<byte>)
    ensures Flat([c]) == c
  {
    assert [c][1..] == [];
    assert Flat([]) == [];
  }

  /** The list cut before and behind attribute k. */
  lemma FlatCut(cs: seq<seq<byte>>, k: nat)
    requires k < |cs|
    ensures Flat(cs) == Flat(cs[..k]) + cs[k] + Flat(cs[k + 1..])
    ensures Offset(cs, k + 1) == Offset(cs, k) + |cs[k]|
  {
    assert cs == cs[..k] + ([cs[k]] + cs[k + 1..]);
    assert cs[..k + 1] == cs[..k] + [cs[k]];
    FlatConcat(cs[..k], [cs[k]] + cs[k + 1..]);
    FlatConcat([cs[k]], cs[k + 1..]);
    FlatConcat(cs[..k], [cs[k]]);
    OneFlat(cs[k]);
  }

  /** Attribute k in the record. */
  lemma ChunkAt(s: seq<byte>, first: nat, inUse: nat, cs: seq<seq<byte>>, k: nat)
    requires Laid(s, first, inUse, cs) && k < |cs|
    ensures first + Offset(cs, k) + |cs[k]| == first + Offset(cs, k + 1) <= inUse - 8
    ensures s[first + Offset(cs, k)..first + Offset(cs, k + 1)] == cs[k]
  {
    hide Flat, Le32;
    FlatCut(cs, k);
    Middle(s, first, inUse - 8, Flat(cs[..k]), cs[k], Flat(cs[k + 1..]));
  }

  lemma Middle(s: seq<byte>, from: nat, to: nat, a: seq<byte>, b: seq<byte>, c: seq<byte>)
    requires from <= to <= |s| && s[from..to] == a + b + c
    ensures from + |a| + |b| <= to && s[from + |a|..from + |a| + |b|] == b
  {
    var m := a + b + c;
    var i, j := |a|, |a| + |b|;
    assert m[i..j] == b;
    assert |m| == to - from && j <= to - from;
    var t, part := s[from + i..from + j], s[from..to];
    forall x | 0 <= x < |t| ensures t[x] == b[x] {
      assert t[x] == part[i + x] == m[i + x] == m[i..j][x];
    }
  }

  lemma EndAt(s: seq<byte>, first: nat, inUse: nat, cs: seq<seq<byte>>)
    requires Laid(s, first, inUse, cs)
    ensures first + Offset(cs, |cs|) == inUse - 8
  {
    assert cs[..|cs|] == cs;
  }

  // ----- the order -----

  datatype Key = Key(kind: nat, name: seq<char16>, value: seq<byte>)

  function KeyOf(c: seq<byte>): Key
    requires Attribute(c)
  {
    Key(TypeOf(c), NameOf(c), ValueOf(c))
  }

  function Number(a: nat, b: nat): int {
    if a < b then -1 else if a > b then 1 else 0
  }

  /** By type, then by name, then by value. */
  function Order(up: seq<char16>, a: Key, b: Key): int {
    Then(Number(a.kind, b.kind), Then(Collate(up, a.name, b.name), Compare(a.value, b.value)))
  }

  lemma OrderSigns(up: seq<char16>, a: Key, b: Key)
    ensures Order(up, b, a) == -Order(up, a, b)
    ensures Order(up, a, b) == 0 <==> a == b
  {
    CollateSigns(up, a.name, b.name);
    CompareSigns(a.value, b.value);
  }

  lemma OrderChained(up: seq<char16>, a: Key, b: Key, c: Key)
    ensures Chained(Order(up, a, b), Order(up, b, c), Order(up, a, c))
  {
    CollateChained(up, a.name, b.name, c.name);
    CompareChained(a.value, b.value, c.value);
    ThenChained(Collate(up, a.name, b.name), Collate(up, b.name, c.name), Collate(up, a.name, c.name),
                Compare(a.value, b.value), Compare(b.value, c.value), Compare(a.value, c.value));
  }

  ghost predicate Sorted(up: seq<char16>, cs: seq<seq<byte>>)
    requires Attributes(cs)
  {
    forall i, j :: 0 <= i < j < |cs| ==> Order(up, KeyOf(cs[i]), KeyOf(cs[j])) <= 0
  }

  // ----- the search -----

  /** What is looked for: without a name any name matches, without a value any value; the empty name is
    * that of unnamed attributes. */
  datatype Query = Query(kind: nat, name: Option<seq<char16>>, value: Option<seq<byte>>)

  datatype Verdict = Stop | Hit | Pass

  function ByOrder(order: int): Verdict {
    if order < 0 then Stop else if order > 0 then Pass else Hit
  }

  /** What the search makes of one attribute. */
  function Judge(up: seq<char16>, q: Query, c: seq<byte>): Verdict
    requires Attribute(c)
  {
    if q.kind == AT_UNUSED then Hit
    else if TypeOf(c) != q.kind then ByOrder(Number(q.kind, TypeOf(c)))
    else if q.name.Some? && NameOf(c) != q.name.value then ByOrder(Collate(up, q.name.value, NameOf(c)))
    else if q.value.Some? then ByOrder(Compare(q.value.value, ValueOf(c)))
    else Hit
  }

  datatype Place = Present(k: nat) | Absent(k: nat)

  /** The first attribute from k on that is not passed by. */
  function Search(up: seq<char16>, q: Query, cs: seq<seq<byte>>, k: nat): (p: Place)
    requires k <= |cs| && Attributes(cs)
    ensures k <= p.k <= |cs| && (p.Present? ==> p.k < |cs|)
    ensures forall i :: k <= i < p.k ==> Judge(up, q, cs[i]) == Pass
    ensures p.Present? ==> Judge(up, q, cs[p.k]) == Hit
    ensures p.Absent? && p.k < |cs| ==> Judge(up, q, cs[p.k]) == Stop
    decreases |cs| - k
  {
    if k == |cs| then Absent(k)
    else match Judge(up, q, cs[k])
      case Stop => Absent(k)
      case Hit => Present(k)
      case Pass => Search(up, q, cs, k + 1)
  }

  /** The key of the attribute that is looked for. */
  function Wanted(q: Query, value: seq<byte>): Key
    requires q.value.Some? ==> value == q.value.value
  {
    Key(q.kind, if q.name.Some? then q.name.value else [], value)
  }

  predicate NamedOfKind(c: seq<byte>, kind: nat)
    requires Attribute(c)
  {
    TypeOf(c) == kind && NameOf(c) != []
  }

  /** For a full query the verdict is the order of the keys. */
  lemma JudgeIsOrder(up: seq<char16>, q: Query, c: seq<byte>)
    requires Attribute(c) && q.kind != AT_UNUSED && q.name.Some? && q.value.Some?
    ensures Judge(up, q, c) == ByOrder(Order(up, Wanted(q, q.value.value), KeyOf(c)))
  {
    CollateSigns(up, q.name.value, NameOf(c));
  }

  /** Without a value the verdict tells the order for every value. */
  lemma JudgeOfName(up: seq<char16>, q: Query, c: seq<byte>, value: seq<byte>)
    requires Attribute(c) && q.kind != AT_UNUSED && q.name.Some? && q.value.None?
    ensures Judge(up, q, c) == Stop ==> Order(up, Wanted(q, value), KeyOf(c)) < 0
    ensures Judge(up, q, c) == Pass ==> Order(up, Wanted(q, value), KeyOf(c)) > 0
    ensures Judge(up, q, c) == Hit <==> TypeOf(c) == q.kind && NameOf(c) == q.name.value
  {
    CollateSigns(up, q.name.value, NameOf(c));
  }

  /** Without a name the verdict tells the order unless a named attribute of the type is passed. */
  lemma JudgeOfValue(up: seq<char16>, q: Query, c: seq<byte>, value: seq<byte>)
    requires Attribute(c) && q.kind != AT_UNUSED && q.name.None? && (q.value.Some? ==> value == q.value.value)
    ensures Judge(up, q, c) == Stop ==> Order(up, Wanted(q, value), KeyOf(c)) < 0
    ensures Judge(up, q, c) == Pass ==>
              (Order(up, Wanted(q, value), KeyOf(c)) >= 0 <==> !NamedOfKind(c, q.kind))
  {
    EmptyFirst(up, NameOf(c));
    CollateSigns(up, [], NameOf(c));
  }

  // ----- insertion -----

  lemma InsertedAttributes(cs: seq<seq<byte>>, k: nat, c: seq<byte>)
    requires Attributes(cs) && Attribute(c) && k <= |cs|
    ensures Attributes(With(cs, k, c))
  {
  }

  /** Putting c at k keeps the order if and only if c is between what is before and what is after. */
  lemma InsertSorted(up: seq<char16>, cs: seq<seq<byte>>, k: nat, c: seq<byte>)
    requires Attributes(cs) && Attribute(c) && k <= |cs| && Sorted(up, cs) && Attributes(With(cs, k, c))
    requires forall i :: k <= i < |cs| ==> Order(up, KeyOf(c), KeyOf(cs[i])) <= 0
    ensures Sorted(up, With(cs, k, c)) <==> forall i :: 0 <= i < k ==> Order(up, KeyOf(cs[i]), KeyOf(c)) <= 0
  {
    hide Order, Attribute, KeyOf;
  }

  /** Where a search in a sorted record stops: everything before comes before, everything after comes after. */
  lemma AfterStop(up: seq<char16>, q: Query, cs: seq<seq<byte>>, k: nat, value: seq<byte>)
    requires Attributes(cs) && Sorted(up, cs) && q.kind != AT_UNUSED && (q.value.Some? ==> value == q.value.value)
    requires Search(up, q, cs, 0) == Absent(k)
    ensures forall i :: k <= i < |cs| ==> Order(up, Wanted(q, value), KeyOf(cs[i])) < 0
  {
    hide Order, Attribute, KeyOf, Judge;
    if k < |cs| {
      JudgeStop(up, q, cs[k], value);
      forall i | k < i < |cs| ensures Order(up, Wanted(q, value), KeyOf(cs[i])) < 0 {
        OrderChained(up, Wanted(q, value), KeyOf(cs[k]), KeyOf(cs[i]));
      }
    }
  }

  lemma JudgeStop(up: seq<char16>, q: Query, c: seq<byte>, value: seq<byte>)
    requires Attribute(c) && q.kind != AT_UNUSED && (q.value.Some? ==> value == q.value.value)
    requires Judge(up, q, c) == Stop
    ensures Order(up, Wanted(q, value), KeyOf(c)) < 0
  {
    if q.name.None? {
      JudgeOfValue(up, q, c, value);
    } else if q.value.None? {
      JudgeOfName(up, q, c, value);
    } else {
      JudgeIsOrder(up, q, c);
    }
  }

  /** An attribute with the key that is looked for. */
  ghost predicate Matches(up: seq<char16>, q: Query, c: seq<byte>, value: seq<byte>) {
    Attribute(c) && (q.value.Some? ==> value == q.value.value) && KeyOf(c) == Wanted(q, value)
  }

  /** A failed search with a name stops where an attribute of that key keeps the record sorted. */
  lemma StopKeepsOrder(up: seq<char16>, q: Query, cs: seq<seq<byte>>, k: nat, c: seq<byte>, value: seq<byte>)
    requires Attributes(cs) && Sorted(up, cs) && q.kind != AT_UNUSED && q.name.Some?
    requires Search(up, q, cs, 0) == Absent(k) && Matches(up, q, c, value)
    ensures Attributes(With(cs, k, c)) && Sorted(up, With(cs, k, c))
  {
    hide Order, Attribute, KeyOf, Judge, Sorted;
    AfterStop(up, q, cs, k, value);
    InsertedAttributes(cs, k, c);
    forall i | 0 <= i < k ensures Order(up, KeyOf(cs[i]), KeyOf(c)) <= 0 {
      OrderSigns(up, KeyOf(c), KeyOf(cs[i]));
      if q.value.None? {
        JudgeOfName(up, q, cs[i], value);
      } else {
        JudgeIsOrder(up, q, cs[i]);
      }
    }
    InsertSorted(up, cs, k, c);
  }

  /** A search without a name is for an unnamed attribute only while it passes by no named one of the type. */
  lemma NamelessPasses(up: seq<char16>, q: Query, cs: seq<seq<byte>>, k: nat, c: seq<byte>, value: seq<byte>)
    requires Attributes(cs) && Sorted(up, cs) && q.kind != AT_UNUSED && q.name.None?
    requires Search(up, q, cs, 0) == Absent(k) && Matches(up, q, c, value)
    ensures Attributes(With(cs, k, c))
    ensures Sorted(up, With(cs, k, c)) <==> forall i :: 0 <= i < k ==> !NamedOfKind(cs[i], q.kind)
  {
    hide Order, Attribute, KeyOf, Judge, Sorted, NamedOfKind;
    AfterStop(up, q, cs, k, value);
    InsertedAttributes(cs, k, c);
    InsertSorted(up, cs, k, c);
    forall i | 0 <= i < k
      ensures Order(up, KeyOf(cs[i]), KeyOf(c)) <= 0 <==> !NamedOfKind(cs[i], q.kind)
    {
      OrderSigns(up, KeyOf(c), KeyOf(cs[i]));
      JudgeOfValue(up, q, cs[i], value);
    }
  }

  /** Every attribute of the type up to position j has a smaller value. */
  ghost predicate SmallerUpTo(cs: seq<seq<byte>>, kind: nat, value: seq<byte>, j: nat)
    requires Attributes(cs) && j < |cs|
  {
    forall i :: 0 <= i <= j && TypeOf(cs[i]) == kind ==> Compare(ValueOf(cs[i]), value) < 0
  }

  /** A named attribute of the type stands in front of the place of this value. */
  ghost predicate NameInTheWay(cs: seq<seq<byte>>, kind: nat, value: seq<byte>)
    requires Attributes(cs)
  {
    exists j :: 0 <= j < |cs| && NamedOfKind(cs[j], kind) && SmallerUpTo(cs, kind, value, j)
  }

  /** Without a name, adding keeps the order if and only if no value is given or no named attribute is in the
    * way of it. */
  lemma NamelessKeepsOrder(up: seq<char16>, q: Query, cs: seq<seq<byte>>, k: nat, c: seq<byte>, value: seq<byte>)
    requires Attributes(cs) && Sorted(up, cs) && q.kind != AT_UNUSED && q.name.None?
    requires Search(up, q, cs, 0) == Absent(k) && Matches(up, q, c, value)
    ensures Attributes(With(cs, k, c))
    ensures Sorted(up, With(cs, k, c)) <==> q.value.None? || !NameInTheWay(cs, q.kind, value)
  {
    hide Order, Attribute, KeyOf, Judge, Sorted, NamedOfKind, Matches, SmallerUpTo, Search;
    assert q.value.Some? ==> value == q.value.value by {
      MatchedValue(up, q, c, value);
    }
    NamelessPasses(up, q, cs, k, c, value);
    forall j | 0 <= j < |cs| && NamedOfKind(cs[j], q.kind)
      ensures j < k <==> q.value.Some? && SmallerUpTo(cs, q.kind, value, j)
    {
      PassedNamed(up, q, cs, k, j);
    }
  }

  lemma MatchedValue(up: seq<char16>, q: Query, c: seq<byte>, value: seq<byte>)
    requires Matches(up, q, c, value)
    ensures q.value.Some? ==> value == q.value.value
  {
  }

  /** The search passes a named attribute of the type exactly when it looks for a value that is larger than
    * all so far. */
  lemma PassedNamed(up: seq<char16>, q: Query, cs: seq<seq<byte>>, k: nat, j: nat)
    requires Attributes(cs) && Sorted(up, cs) && q.kind != AT_UNUSED && q.name.None?
    requires Search(up, q, cs, 0) == Absent(k) && j < |cs| && NamedOfKind(cs[j], q.kind)
    ensures j < k <==> q.value.Some? && SmallerUpTo(cs, q.kind, q.value.value, j)
  {
    hide Compare, ValueOf, TypeOf;
    if j < k {
      assert Judge(up, q, cs[j]) == Pass;
      forall i | 0 <= i <= j && TypeOf(cs[i]) == q.kind ensures Compare(ValueOf(cs[i]), q.value.value) < 0 {
        assert Judge(up, q, cs[i]) == Pass;
        CompareSigns(q.value.value, ValueOf(cs[i]));
      }
    } else if q.value.Some? && SmallerUpTo(cs, q.kind, q.value.value, j) {
      assert TypeOf(cs[k]) <= q.kind by {
        TypesSorted(up, cs, k, j);
      }
      assert Judge(up, q, cs[k]) == Stop;
      CompareSigns(q.value.value, ValueOf(cs[k]));
      assert false;
    }
  }

  lemma TypesSorted(up: seq<char16>, cs: seq<seq<byte>>, i: nat, j: nat)
    requires Attributes(cs) && Sorted(up, cs) && i <= j < |cs|
    ensures TypeOf(cs[i]) <= TypeOf(cs[j])
  {
    if i < j {
      assert Order(up, KeyOf(cs[i]), KeyOf(cs[j])) <= 0;
    }
  }

  /** In a sorted record the search by name fails only when no attribute matches, and finds the first one. */
  lemma FindsWhatIsThere(up: seq<char16>, q: Query, cs: seq<seq<byte>>)
    requires Attributes(cs) && Sorted(up, cs) && q.kind != AT_UNUSED && q.name.Some?
    ensures Search(up, q, cs, 0).Present? <==> exists j :: 0 <= j < |cs| && Judge(up, q, cs[j]) == Hit
    ensures forall j :: 0 <= j < |cs| && Judge(up, q, cs[j]) == Hit ==> Search(up, q, cs, 0).k <= j
  {
    hide Order, Attribute, KeyOf, Judge, Sorted;
    var p := Search(up, q, cs, 0);
    forall j | 0 <= j < |cs| && Judge(up, q, cs[j]) == Hit
      ensures p.Present? && p.k <= j
    {
      if p.Absent? && p.k <= j {
        var value := if q.value.Some? then q.value.value else KeyOf(cs[j]).value;
        AfterStop(up, q, cs, p.k, value);
        HitIsEqual(up, q, cs[j], value);
      }
    }
  }

  lemma HitIsEqual(up: seq<char16>, q: Query, c: seq<byte>, value: seq<byte>)
    requires Attribute(c) && q.kind != AT_UNUSED && q.name.Some?
    requires value == if q.value.Some? then q.value.value else KeyOf(c).value
    ensures Judge(up, q, c) == Hit <==> Order(up, Wanted(q, value), KeyOf(c)) == 0
  {
    OrderSigns(up, Wanted(q, value), KeyOf(c));
    if q.value.None? {
      JudgeOfName(up, q, c, value);
    } else {
      JudgeIsOrder(up, q, c);
    }
  }
}
