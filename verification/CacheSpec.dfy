/** What an LRU cache is: a sequence of items, the most recent first, of bounded length and without two
  * equal items. `same(x, y)` says that x is an item looked for by y. */
module CacheSpec {
  import opened Bytes
  import opened Seqs

  /** A cached item: its fixed part and its part of variable size. */
  datatype Item = Item(fixed: seq<byte>, variable: seq<byte>)

  ghost predicate Equality(same: (Item, Item) -> bool) {
    (forall x :: same(x, x)) && (forall x, y, z :: same(x, z) && same(y, z) ==> same(x, y))
  }

  lemma Symmetric(same: (Item, Item) -> bool, x: Item, y: Item)
    requires Equality(same)
    ensures same(x, y) <==> same(y, x)
    ensures same(x, y) ==> forall z :: same(x, z) <==> same(y, z)
  {
    assert same(x, x) && same(y, y);
    forall z | same(x, y)
      ensures same(x, z) <==> same(y, z)
    {
      assert same(z, z);
    }
  }

  ghost predicate NoTwo(items: seq<Item>, same: (Item, Item) -> bool) {
    forall i, j :: 0 <= i < |items| && 0 <= j < |items| && same(items[i], items[j]) ==> i == j
  }

  /** The position of the first item looked for. */
  function Find(items: seq<Item>, wanted: Item, same: (Item, Item) -> bool): (k: Option<nat>)
    ensures k.Some? ==> k.value < |items| && same(items[k.value], wanted)
    ensures k.Some? ==> forall j :: 0 <= j < k.value ==> !same(items[j], wanted)
    ensures k.None? ==> forall j :: 0 <= j < |items| ==> !same(items[j], wanted)
  {
    if items == [] then None
    else if same(items[0], wanted) then Some(0)
    else
      match Find(items[1..], wanted, same)
      case None => None
      case Some(k) =>
        assert forall j :: 0 < j < |items| ==> items[j] == items[1..][j - 1];
        Some(k + 1)
  }

  /** A hit moves to the front. */
  function Fetched(items: seq<Item>, wanted: Item, same: (Item, Item) -> bool): seq<Item> {
    match Find(items, wanted, same)
    case None => items
    case Some(k) => [items[k]] + Without(items, k)
  }

  /** A new item is put in front, and the last one gives way when there is no more room. */
  function Entered(items: seq<Item>, item: Item, same: (Item, Item) -> bool, capacity: nat): seq<Item>
    requires capacity >= 1
  {
    if Find(items, item, same).Some? then items else [item] + items[..Min(|items|, capacity - 1)]
  }

  lemma EnteredIs(items: seq<Item>, item: Item, same: (Item, Item) -> bool, capacity: nat)
    requires capacity >= 1
    ensures match Find(items, item, same)
            case None =>
              Entered(items, item, same, capacity) ==
              [item] + if |items| < capacity then items else items[..capacity - 1]
            case Some(k) => k < |items| && Entered(items, item, same, capacity) == items
  {
  }

  /** In a cache without two equal items there is one place for an item. */
  lemma FoundAt(items: seq<Item>, j: nat, wanted: Item, same: (Item, Item) -> bool)
    requires Equality(same) && NoTwo(items, same) && j < |items| && same(items[j], wanted)
    ensures Find(items, wanted, same) == Some(j)
  {
    var k := Find(items, wanted, same).value;
    assert same(items[k], items[j]) by {
      Symmetric(same, items[j], wanted);
    }
  }

  /** What entering an item means for later lookups: the item is found, and of the others those that were found
    * before, but for the last one of a full cache that a new item displaces. */
  lemma EnteredFinds(items: seq<Item>, item: Item, other: Item, same: (Item, Item) -> bool, capacity: nat)
    requires 1 <= capacity && |items| <= capacity && Equality(same) && NoTwo(items, same)
    ensures Find(Entered(items, item, same, capacity), item, same).Some?
    ensures !same(other, item) ==>
              (Find(Entered(items, item, same, capacity), other, same).Some? <==>
               && Find(items, other, same).Some?
               && !(Find(items, item, same).None? && Find(items, other, same) == Some(capacity - 1)))
  {
    var now := Entered(items, item, same, capacity);
    assert same(item, item);
    if Find(items, item, same).None? {
      assert now[0] == item;
      assert forall i :: 1 <= i < |now| ==> now[i] == items[i - 1];
      Symmetric(same, other, item);
      if Find(items, other, same).Some? {
        var k := Find(items, other, same).value;
        assert k < capacity - 1 ==> now[k + 1] == items[k];
        forall j | 0 <= j < |items| && same(items[j], other) ensures j == k {
          FoundAt(items, j, other, same);
        }
      }
    }
  }

  /** The items that are not looked for. */
  function Invalidated(items: seq<Item>, item: Item, same: (Item, Item) -> bool): seq<Item> {
    if items == [] then []
    else (if same(items[0], item) then [] else [items[0]]) + Invalidated(items[1..], item, same)
  }

  lemma {:induction false} InvalidatedSkip(items: seq<Item>, k: nat, item: Item, same: (Item, Item) -> bool)
    requires k < |items| && same(items[k], item)
    ensures Invalidated(Without(items, k), item, same) == Invalidated(items, item, same)
  {
    if k == 0 {
      assert Without(items, 0) == items[1..];
    } else {
      InvalidatedSkip(items[1..], k - 1, item, same);
      assert Without(items, k)[1..] == Without(items[1..], k - 1);
    }
  }

  lemma {:induction false} InvalidatedNone(items: seq<Item>, item: Item, same: (Item, Item) -> bool)
    requires forall i :: 0 <= i < |items| ==> !same(items[i], item)
    ensures Invalidated(items, item, same) == items
  {
    if items != [] {
      assert forall i :: 0 <= i < |items[1..]| ==> items[1..][i] == items[i + 1];
      InvalidatedNone(items[1..], item, same);
    }
  }

  /** On the way from `items` to its invalidation: count items that are looked for are gone, and if the free
    * function is to be told, it was told of as many. */
  ghost predicate Clearing(items: seq<Item>, now: seq<Item>, item: Item, selects: (Item, Item) -> bool, told: bool,
                           count: nat, gone: seq<Item>) {
    && Invalidated(now, item, selects) == Invalidated(items, item, selects)
    && count + |now| == |items| && |gone| == (if told then count else 0)
    && forall i :: 0 <= i < |gone| ==> selects(gone[i], item)
  }

  lemma ClearingMore(items: seq<Item>, was: seq<Item>, k: nat, item: Item, selects: (Item, Item) -> bool, told: bool,
                     count: nat, gone: seq<Item>)
    requires Clearing(items, was, item, selects, told, count, gone) && k < |was| && selects(was[k], item)
    ensures Clearing(items, Without(was, k), item, selects, told, count + 1, gone + if told then [was[k]] else [])
  {
    InvalidatedSkip(was, k, item, selects);
    assert Invalidated(Without(was, k), item, selects) == Invalidated(items, item, selects);
  }

  lemma NotYet(items: seq<Item>, item: Item, selects: (Item, Item) -> bool, told: bool)
    ensures Clearing(items, items, item, selects, told, 0, [])
  {
  }

  lemma ClearingDone(items: seq<Item>, now: seq<Item>, item: Item, selects: (Item, Item) -> bool, told: bool,
                     count: nat, gone: seq<Item>)
    requires Clearing(items, now, item, selects, told, count, gone)
    requires forall i :: 0 <= i < |now| ==> !selects(now[i], item)
    ensures now == Invalidated(items, item, selects)
  {
    InvalidatedNone(now, item, selects);
  }

  /** What users ask of a cache. The selection by which entries are invalidated is a relation of its own. */
  datatype Request =
    | Fetch(wanted: Item)
    | Enter(item: Item)
    | Invalidate(item: Item, selects: (Item, Item) -> bool)
    | Remove(at: nat)

  function Served(items: seq<Item>, r: Request, same: (Item, Item) -> bool, capacity: nat): seq<Item>
    requires capacity >= 1
  {
    match r
    case Fetch(wanted) => Fetched(items, wanted, same)
    case Enter(item) => Entered(items, item, same, capacity)
    case Invalidate(item, selects) => Invalidated(items, item, selects)
    case Remove(at) => if at < |items| then Without(items, at) else items
  }

  function ServedAll(rs: seq<Request>, same: (Item, Item) -> bool, capacity: nat): seq<Item>
    requires capacity >= 1
  {
    if rs == [] then []
    else Served(ServedAll(rs[..|rs| - 1], same, capacity), rs[|rs| - 1], same, capacity)
  }

  /** Every item of the shorter sequence comes from one of the longer, in the same order. */
  ghost predicate Picks(out: seq<Item>, items: seq<Item>, at: seq<nat>) {
    && |at| == |out|
    && (forall i :: 0 <= i < |at| ==> i <= at[i] < |items| && out[i] == items[at[i]])
    && (forall i, j :: 0 <= i < j < |at| ==> at[i] < at[j])
  }

  lemma PicksMore(out: seq<Item>, items: seq<Item>, rest: seq<nat>, x: Item, taken: bool) returns (at: seq<nat>)
    requires Picks(out, items, rest)
    ensures Picks((if taken then [x] else []) + out, [x] + items, at)
  {
    at := (if taken then [0] else []) + seq(|rest|, i requires 0 <= i < |rest| => rest[i] + 1);
  }

  lemma {:induction false} InvalidatedPicks(items: seq<Item>, item: Item, same: (Item, Item) -> bool)
    returns (at: seq<nat>)
    ensures Picks(Invalidated(items, item, same), items, at)
  {
    if items == [] {
      at := [];
    } else {
      at := InvalidatedPicks(items[1..], item, same);
      at := PicksMore(Invalidated(items[1..], item, same), items[1..], at, items[0], !same(items[0], item));
      assert items == [items[0]] + items[1..];
    }
  }

  lemma PicksKeep(out: seq<Item>, items: seq<Item>, at: seq<nat>, same: (Item, Item) -> bool)
    requires Picks(out, items, at) && NoTwo(items, same)
    ensures |out| <= |items| && NoTwo(out, same)
  {
    if |out| > 0 {
      assert |at| - 1 <= at[|at| - 1] < |items|;
    }
  }

  lemma FetchKeeps(items: seq<Item>, wanted: Item, same: (Item, Item) -> bool)
    requires NoTwo(items, same)
    ensures |Fetched(items, wanted, same)| == |items| && NoTwo(Fetched(items, wanted, same), same)
  {
  }

  lemma EnterKeeps(items: seq<Item>, item: Item, same: (Item, Item) -> bool, capacity: nat)
    requires capacity >= 1 && Equality(same) && |items| <= capacity && NoTwo(items, same)
    ensures |Entered(items, item, same, capacity)| <= capacity && NoTwo(Entered(items, item, same, capacity), same)
  {
    if Find(items, item, same).None? {
      forall j | 0 <= j < |items|
        ensures !same(item, items[j])
      {
        Symmetric(same, item, items[j]);
      }
    }
  }

  lemma ServedKeeps(items: seq<Item>, r: Request, same: (Item, Item) -> bool, capacity: nat)
    requires capacity >= 1 && Equality(same) && |items| <= capacity && NoTwo(items, same)
    ensures |Served(items, r, same, capacity)| <= capacity && NoTwo(Served(items, r, same, capacity), same)
  {
    match r
    case Fetch(wanted) => FetchKeeps(items, wanted, same);
    case Enter(item) => EnterKeeps(items, item, same, capacity);
    case Invalidate(item, selects) =>
      var at := InvalidatedPicks(items, item, selects);
      PicksKeep(Invalidated(items, item, selects), items, at, same);
    case Remove(_) =>
  }

  /** After any requests the cache is within its capacity and holds no two equal items. */
  lemma {:induction false} AlwaysSound(rs: seq<Request>, same: (Item, Item) -> bool, capacity: nat)
    requires capacity >= 1 && Equality(same)
    ensures |ServedAll(rs, same, capacity)| <= capacity && NoTwo(ServedAll(rs, same, capacity), same)
  {
    if rs != [] {
      AlwaysSound(rs[..|rs| - 1], same, capacity);
      ServedKeeps(ServedAll(rs[..|rs| - 1], same, capacity), rs[|rs| - 1], same, capacity);
    }
  }

  /** Looking an item up, and entering it when it is not there. */
  function Used(items: seq<Item>, item: Item, same: (Item, Item) -> bool, capacity: nat): seq<Item>
    requires capacity >= 1
  {
    Entered(Fetched(items, item, same), item, same, capacity)
  }

  datatype Event = Use(item: Item) | Drop(item: Item, selects: (Item, Item) -> bool)

  function Handled(es: seq<Event>, same: (Item, Item) -> bool, capacity: nat): seq<Item>
    requires capacity >= 1
  {
    if es == [] then []
    else
      var items := Handled(es[..|es| - 1], same, capacity);
      match es[|es| - 1]
      case Use(item) => Used(items, item, same, capacity)
      case Drop(item, selects) => Invalidated(items, item, selects)
  }

  /** The larger cache starts with equal items. */
  ghost predicate Ahead(small: seq<Item>, large: seq<Item>, same: (Item, Item) -> bool) {
    |small| <= |large| && forall i :: 0 <= i < |small| ==> same(small[i], large[i])
  }

  lemma {:induction false} FindAhead(small: seq<Item>, large: seq<Item>, item: Item, same: (Item, Item) -> bool)
    requires Equality(same) && Ahead(small, large, same)
    ensures Find(small, item, same).Some? ==> Find(large, item, same) == Find(small, item, same)
    ensures Find(small, item, same).None? && Find(large, item, same).Some? ==> Find(large, item, same).value >= |small|
  {
    if small != [] {
      Symmetric(same, small[0], large[0]);
      FindAhead(small[1..], large[1..], item, same);
    }
  }

  /** A selection that does not tell equal items apart. */
  ghost predicate Respects(selects: (Item, Item) -> bool, same: (Item, Item) -> bool) {
    forall x, y, z :: same(x, y) ==> (selects(x, z) <==> selects(y, z))
  }

  lemma {:induction false} InvalidatedAhead(small: seq<Item>, large: seq<Item>, item: Item,
                                                       selects: (Item, Item) -> bool, same: (Item, Item) -> bool)
    requires Ahead(small, large, same) && Respects(selects, same)
    ensures Ahead(Invalidated(small, item, selects), Invalidated(large, item, selects), same)
  {
    if small != [] {
      InvalidatedAhead(small[1..], large[1..], item, selects, same);
    }
  }

  lemma FetchedAhead(small: seq<Item>, large: seq<Item>, item: Item, same: (Item, Item) -> bool)
    requires Equality(same) && Ahead(small, large, same)
    ensures Find(small, item, same).Some? ==> Ahead(Fetched(small, item, same), Fetched(large, item, same), same)
  {
    FindAhead(small, large, item, same);
  }

  lemma FoundInFront(items: seq<Item>, item: Item, same: (Item, Item) -> bool)
    ensures Find(items, item, same).Some? ==> Find(Fetched(items, item, same), item, same) == Some(0)
  {
  }

  lemma UsedAhead(small: seq<Item>, large: seq<Item>, item: Item, same: (Item, Item) -> bool, c: nat, d: nat)
    requires 1 <= c <= d && Ahead(small, large, same) && |small| <= c && Equality(same)
    ensures Ahead(Used(small, item, same, c), Used(large, item, same, d), same)
  {
    FindAhead(small, large, item, same);
    FoundInFront(small, item, same);
    FoundInFront(large, item, same);
    if Find(small, item, same).Some? {
      FetchedAhead(small, large, item, same);
    } else if Find(large, item, same).Some? {
      var k := Find(large, item, same).value;
      Symmetric(same, item, large[k]);
      assert Used(large, item, same, d) == [large[k]] + Without(large, k);
    } else {
      assert same(item, item);
    }
  }

  /** A larger cache holds what a smaller one holds, in the same order, and more: it hits whenever that hits. */
  lemma {:induction false} LargerIsBetter(es: seq<Event>, same: (Item, Item) -> bool, c: nat, d: nat)
    requires 1 <= c <= d && Equality(same)
    requires forall e :: e in es && e.Drop? ==> Respects(e.selects, same)
    ensures |Handled(es, same, c)| <= c && NoTwo(Handled(es, same, c), same)
    ensures Ahead(Handled(es, same, c), Handled(es, same, d), same)
  {
    if es != [] {
      var rest, e := es[..|es| - 1], es[|es| - 1];
      assert e in es;
      LargerIsBetter(rest, same, c, d);
      var small, large := Handled(rest, same, c), Handled(rest, same, d);
      match e
      case Use(item) =>
        UsedAhead(small, large, item, same, c, d);
        FetchKeeps(small, item, same);
        EnterKeeps(Fetched(small, item, same), item, same, c);
      case Drop(item, selects) =>
        InvalidatedAhead(small, large, item, selects, same);
        var at := InvalidatedPicks(small, item, selects);
        PicksKeep(Invalidated(small, item, selects), small, at, same);
    }
  }
}
