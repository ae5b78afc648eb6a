/** The LRU cache: entries are found through hash chains, or along the LRU list when there is no hashing. */
module LruCache {
  import opened Bytes
  import opened Seqs
  import opened Links
  import opened CacheSpec
  import opened CacheLists

  class Cache {
    var entry: seq<Entry>
    var link: seq<Link>
    var firstHash: seq<int>
    var dohash: Option<Item -> int>
    const dofree: bool                    // is there a function to be told of deleted items?
    var mostRecent: int
    var oldest: int
    var freeEntry: int
    var freeHash: int
    var hitCount: nat
    var readCount: nat
    var writeCount: nat
    ghost var order: seq<int>
    ghost var spare: seq<int>
    ghost var table: Table

    /** Unlink an entry that is not the first from its position, and put it in front. */
    method MoveToFront(current: int, ghost k: nat)
      requires LruList(entry, mostRecent, oldest, order) && 0 < k < |order| && order[k] == current
      modifies `entry, `mostRecent, `oldest, `order
      ensures order == ToFront(old(order), k) && LruList(entry, mostRecent, oldest, order)
      ensures Relinked(entry, old(entry), order)
    {
      ghost var was, e := order, entry;
      assert LruAt(e, was, k);
      var previous := entry[current].previous;
      var next := entry[current].next;
      entry := entry[previous := entry[previous].(next := next)];
      if next != NULL {
        entry := entry[next := entry[next].(previous := previous)];
      } else {
        oldest := previous;
      }
      entry := entry[current := entry[current].(next := mostRecent, previous := NULL)];
      entry := entry[mostRecent := entry[mostRecent].(previous := current)];
      mostRecent := current;
      order := ToFront(was, k);
      MovedList(e, entry, was[0], old(oldest), was, k);
    }

    ghost predicate Hashed()
      reads this
    {
      dohash.Some? && Index(entry, link, firstHash, freeHash, table, dohash.value)
    }

    /** Index an entry; without a free link or a proper hash, hashing is dropped. */
    method InsertHashIndex(current: int)
      requires dohash.Some? ==> Hashed() && 0 <= current < |entry| && current !in table.indexed
      modifies `link, `firstHash, `freeHash, `dohash, `table
      ensures old(dohash).Some? ==>
                var h := old(dohash).value(entry[current].payload);
                if 0 <= h < |old(firstHash)| && old(table).freeLinks != []
                then dohash == old(dohash) && Hashed() && table == Added(old(table), current, h)
                  && |firstHash| == |old(firstHash)|
                else dohash == None
      ensures old(dohash).None? ==> dohash.None?
    {
      if dohash.Some? {
        var h := dohash.value(entry[current].payload);
        if 0 <= h < |firstHash| {
          var l := freeHash;
          if l != NULL {
            AddedIndex(entry, link, link[l := Link(firstHash[h], current)], firstHash, freeHash, table,
                       dohash.value, current, h);
            assert BucketAt(entry, link, firstHash, table, dohash.value, h);
            freeHash := link[l].next;
            var first := firstHash[h];
            link := link[l := Link(if first != NULL then first else NULL, current)];
            firstHash := firstHash[h := l];
            table := Added(table, current, h);
          } else {
            dohash := None;
          }
        } else {
          dohash := None;
        }
      }
    }

    /** Move the link at position k of a chain to the free links. */
    method UnlinkHash(l: int, previous: int, hash: nat, ghost k: nat)
      requires Hashed() && hash < |firstHash| && k < |table.chains[hash]| == |table.buckets[hash]|
      requires l == table.chains[hash][k] && previous == Before(table.chains[hash], k)
      modifies `link, `firstHash, `freeHash, `table
      ensures Hashed() && table == Dropped(old(table), hash, k) && |firstHash| == |old(firstHash)|
    {
      ghost var was, heads, e, chain := link, firstHash, entry, table.chains[hash];
      assert BucketAt(e, was, heads, table, dohash.value, hash);
      if previous != NULL {
        link := link[previous := link[previous].(next := link[l].next)];
      } else {
        firstHash := firstHash[hash := link[l].next];
      }
      link := link[l := link[l].(next := freeHash)];
      DroppedIndex(e, was, link, heads, freeHash, table, dohash.value, hash, k);
      freeHash := l;
      table := Dropped(table, hash, k);
    }

    /** The link of an entry in a chain, and the one before it. */
    method FindLink(current: int, hash: nat) returns (l: int, previous: int)
      requires Hashed() && hash < |firstHash|
      ensures match ChainPosition(table, current, hash)
              case None => l == NULL
              case Some(k) => l == table.chains[hash][k] != NULL && previous == Before(table.chains[hash], k)
    {
      ghost var chain, bucket := table.chains[hash], table.buckets[hash];
      assert BucketAt(entry, link, firstHash, table, dohash.value, hash);
      ghost var k := 0;
      l, previous := firstHash[hash], NULL;
      while l != NULL && link[l].entry != current
        invariant 0 <= k <= |chain| && forall i :: 0 <= i < k ==> bucket[i] != current
        invariant l == (if k < |chain| then chain[k] else NULL) && previous == (if k > 0 then chain[k - 1] else NULL)
        decreases |chain| - k
      {
        previous := l;
        l := link[l].next;
        k := k + 1;
      }
      if l != NULL {
        PositionUnique(bucket, current, k);
      }
    }

    /** Remove an entry from a chain; when it is not there, hashing is dropped. */
    method DropHashIndex(current: int, hash: int)
      requires dohash.Some? ==> Hashed()
      modifies `link, `firstHash, `freeHash, `dohash, `table
      ensures old(dohash).Some? ==>
                var k := ChainPosition(old(table), current, hash);
                if k.Some? then dohash == old(dohash) && Hashed() && table == Dropped(old(table), hash, k.value)
                                && |firstHash| == |old(firstHash)|
                else dohash == None
      ensures old(dohash).None? ==> dohash.None?
    {
      if dohash.Some? {
        assert |firstHash| == |table.buckets|;
        hide Index, ChainPosition;
        if 0 <= hash < |firstHash| {
          var l, previous := FindLink(current, hash);
          if l != NULL {
            UnlinkHash(l, previous, hash, ChainPosition(table, current, hash).value);
          } else {
            dohash := None;
          }
        } else {
          dohash := None;
        }
      }
    }

    ghost predicate ValidBut(missing: int)
      reads this
    {
      Sound(entry, link, firstHash, Heads(mostRecent, oldest, freeEntry, freeHash), order, spare, table, dohash,
            missing)
    }

    ghost predicate Valid()
      reads this
    {
      ValidBut(NULL)
    }

    ghost function Items(): seq<Item>
      requires Nodes(order, |entry|)
      reads this
    {
      Payloads(entry, order)
    }

    /** The class's view of the state, to be used where definitions are hidden. */
    lemma Seen(missing: int)
      ensures Sound(entry, link, firstHash, Heads(mostRecent, oldest, freeEntry, freeHash), order, spare, table,
                    dohash, missing)
              <==> ValidBut(missing)
      ensures Valid() <==> ValidBut(NULL)
      ensures ValidBut(missing) ==> Nodes(order, |entry|) && Items() == Payloads(entry, order)
    {
    }

    ghost predicate HashAgrees(same: (Item, Item) -> bool)
      reads this
    {
      dohash.Some? ==> Agrees(dohash.value, same)
    }

    /** Search in the chain of the hash value if there is hashing, else along the LRU list. */
    method Lookup(wanted: Item, same: (Item, Item) -> bool) returns (current: int)
      requires Valid() && HashAgrees(same) && Equality(same) && NoTwo(Items(), same)
      ensures match Find(Items(), wanted, same) case None => current == NULL case Some(k) => current == order[k] != NULL
    {
      current := NULL;
      if dohash.Some? {
        current := LookupHash(wanted, same);
      }
      if dohash.None? {
        ghost var k := 0;
        current := mostRecent;
        while current != NULL && !same(entry[current].payload, wanted)
          invariant 0 <= k <= |order| && current == (if k < |order| then order[k] else NULL)
          invariant forall i :: 0 <= i < k ==> !same(Items()[i], wanted)
          decreases |order| - k
        {
          assert LruAt(entry, order, k);
          current := entry[current].next;
          k := k + 1;
        }
      }
    }

    method LookupHash(wanted: Item, same: (Item, Item) -> bool) returns (current: int)
      requires Valid() && dohash.Some? && HashAgrees(same) && Equality(same) && NoTwo(Items(), same)
      ensures match Find(Items(), wanted, same) case None => current == NULL case Some(k) => current == order[k] != NULL
    {
      var h := dohash.value(wanted);
      ghost var chain, bucket := table.chains[h], table.buckets[h];
      assert BucketAt(entry, link, firstHash, table, dohash.value, h);
      ghost var k := 0;
      var l := firstHash[h];
      while l != NULL && !same(entry[link[l].entry].payload, wanted)
        invariant 0 <= k <= |chain| && l == (if k < |chain| then chain[k] else NULL)
        invariant forall i :: 0 <= i < k ==> !same(entry[bucket[i]].payload, wanted)
        decreases |chain| - k
      {
        l := link[l].next;
        k := k + 1;
      }
      current := if l != NULL then link[l].entry else NULL;
      BucketFinds(entry, order, bucket, k, wanted, same);
    }

    /** The whole cache after moving an entry to the front. */
    method Promote(current: int, ghost k: nat)
      requires Valid() && 0 < k < |order| && order[k] == current
      modifies `entry, `mostRecent, `oldest, `order
      ensures Valid() && order == ToFront(old(order), k) && Items() == ToFront(old(Items()), k)
              && |entry| == |old(entry)|
    {
      ghost var e, was, m := entry, order, Heads(mostRecent, oldest, freeEntry, freeHash);
      MoveToFront(current, k);
      hide LruAt, Index, LruList, FreeList, Relinked, Searchable;
      PromotedSound(e, entry, link, firstHash, m, Heads(mostRecent, oldest, freeEntry, freeHash), was, k, spare,
                    table, dohash, NULL);
    }

    /** Look up an item; it becomes the most recent one. */
    method FetchCache(wanted: Item, same: (Item, Item) -> bool) returns (current: int)
      requires Valid() && HashAgrees(same) && Equality(same) && NoTwo(Items(), same)
      modifies `entry, `mostRecent, `oldest, `order, `hitCount, `readCount
      ensures Valid() && Items() == Fetched(old(Items()), wanted, same) && |entry| == |old(entry)|
      ensures match Find(old(Items()), wanted, same)
              case None => current == NULL && hitCount == old(hitCount)
              case Some(k) =>
                && order != [] && current == order[0] && Items()[0] == old(Items())[k]
                && hitCount == old(hitCount) + 1
      ensures readCount == old(readCount) + 1
    {
      current := Lookup(wanted, same);
      ghost var found, items := Find(Items(), wanted, same), Items();
      if current != NULL {
        ghost var k := found.value;
        FirstHasNoPrevious(entry, mostRecent, oldest, order, k);
        var previous := entry[current].previous;
        hide Sound;
        hitCount := hitCount + 1;
        if previous != NULL {
          Promote(current, k);
        } else {
          assert items == ToFront(items, k);
        }
      }
      readCount := readCount + 1;
    }

    /** Take a free entry, put it in front and fill it. */
    method TakeFree(item: Item) returns (current: int)
      requires Valid() && freeEntry != NULL
      modifies `entry, `mostRecent, `oldest, `freeEntry, `order, `spare
      ensures ValidBut(current) && Items() == [item] + old(Items()) && order == [current] + old(order)
      ensures |entry| == |old(entry)|
    {
      ghost var e, was, m, oldSpare := entry, order, Heads(mostRecent, oldest, freeEntry, freeHash), spare;
      current := freeEntry;
      freeEntry := entry[freeEntry].next;
      if oldest == NULL {
        oldest := current;
      }
      LinkFirst(current, item, was);
      order, spare := [current] + was, spare[1..];
      assert m.oldest == NULL <==> was == [];
      hide LruAt, Searchable, Apart, FreeList, LruList, Pushed;
      PushedSound(e, entry, link, firstHash, m, Heads(mostRecent, oldest, freeEntry, freeHash), was, oldSpare,
                  table, dohash, item);
    }

    /** Put an entry in front of the LRU list and fill it. */
    method LinkFirst(current: int, item: Item, ghost was: seq<int>)
      requires 0 <= current < |entry| && mostRecent == First(was) && current != mostRecent
      requires was != [] ==> 0 <= was[0] < |entry|
      modifies `entry, `mostRecent
      ensures mostRecent == current && Pushed(old(entry), entry, was, current, item) && |entry| == |old(entry)|
    {
      entry := entry[current := Entry(mostRecent, NULL, entry[current].payload)];
      if mostRecent != NULL {
        entry := entry[mostRecent := entry[mostRecent].(previous := current)];
      }
      mostRecent := current;
      entry := entry[current := entry[current].(payload := item)];
    }

    method IndexEntry(current: int)
      requires ValidBut(current) && current in order
      modifies `link, `firstHash, `freeHash, `dohash, `table
      ensures Valid() && dohash == old(dohash) && Items() == old(Items())
    {
      if dohash.Some? {
        var h := dohash.value;
        ghost var m, t, links, heads := Heads(mostRecent, oldest, freeEntry, freeHash), table, link, firstHash;
        LinkFree(entry, link, firstHash, freeHash, table, h, current);
        InsertHashIndex(current);
        hide LruAt, Searchable, Apart, FreeList, LruList, Index;
        AddedSound(entry, links, heads, link, firstHash, m, Heads(mostRecent, oldest, freeEntry, freeHash), order,
                   spare, t, h, current, h(entry[current].payload));
      } else {
        InsertHashIndex(current);
      }
    }

    /** Remove an entry in use from its hash chain; e are the entries before their links were changed. */
    method Unindex(current: int, hash: int, ghost e: seq<Entry>)
      requires Sound(e, link, firstHash, Heads(mostRecent, oldest, freeEntry, freeHash), order, spare, table, dohash,
                     NULL)
      requires |e| == |entry| && forall x :: 0 <= x < |e| ==> entry[x].payload == e[x].payload
      requires current in order && (dohash.Some? ==> hash == dohash.value(entry[current].payload))
      modifies `link, `firstHash, `freeHash, `dohash, `table
      ensures dohash == old(dohash)
      ensures Sound(e, link, firstHash, Heads(mostRecent, oldest, freeEntry, freeHash), order, spare, table, dohash,
                    current)
      ensures dohash.Some? ==>
              var k := ChainPosition(old(table), current, hash); k.Some? && table == Dropped(old(table), hash, k.value)
    {
      if dohash.Some? {
        var h := dohash.value;
        ghost var m, t, links, heads := Heads(mostRecent, oldest, freeEntry, freeHash), table, link, firstHash;
        InItsChain(e, links, heads, m, order, spare, t, h, current);
        IndexStays(entry, e, links, heads, freeHash, t, h);
        ghost var k := ChainPosition(t, current, hash).value;
        hide LruAt, Apart, FreeList, LruList, Index;
        DropHashIndex(current, hash);
        IndexStays(e, entry, link, firstHash, freeHash, table, h);
        DroppedSound(e, links, heads, link, firstHash, m, Heads(mostRecent, oldest, freeEntry, freeHash), order,
                     spare, t, h,
                     current, hash, k);
      }
    }

    /** The items the free function is told of when entry x goes. */
    function Told(e: seq<Entry>, x: int, tell: bool): seq<Item> {
      if tell && dofree && 0 <= x < |e| then [e[x].payload] else []
    }

    /** Cut the oldest entry off the LRU list and out of its hash chain. */
    method DetachOldest() returns (current: int)
      requires Valid() && |order| >= 2
      modifies `entry, `link, `firstHash, `freeHash, `dohash, `table
      ensures dohash == old(dohash) && current == Last(order) && CutOff(old(entry), entry, order)
      ensures Sound(old(entry), link, firstHash, Heads(mostRecent, oldest, freeEntry, freeHash), order, spare, table,
                    dohash, current)
    {
      ghost var e, k := entry, |order| - 1;
      LinksOf(e, mostRecent, oldest, order, k);
      assert oldest == order[k] && order[k] in order && Nodes(order, |e|);
      current := oldest;
      hide LruAt, LruList, Apart, FreeList, Searchable, Sound, Nodes;
      var before := entry[current].previous;
      entry := entry[before := entry[before].(next := NULL)];
      var hash := if dohash.Some? then dohash.value(entry[current].payload) else 0;
      Unindex(current, hash, e);
    }

    /** Take the entry of the oldest item, unlink its hash, put it in front and fill it. `gone` are the items the
      * free function is told of. */
    method Recycle(item: Item) returns (current: int, gone: seq<Item>)
      requires Valid() && freeEntry == NULL
      modifies `entry, `link, `firstHash, `mostRecent, `oldest, `freeHash, `dohash, `table, `order
      ensures ValidBut(current) && order != [] && order[0] == current && dohash == old(dohash)
      ensures |old(order)| == |entry| == |old(entry)| && Items() == [item] + old(Items())[..|entry| - 1]
      ensures gone == Told(old(entry), old(oldest), true)
    {
      hide *;
      ghost var was, e, k := order, entry, |order| - 1;
      ghost var m0 := Heads(mostRecent, oldest, freeEntry, freeHash);
      Seen(NULL);
      SoundParts(e, link, firstHash, m0, was, spare, table, dohash, NULL);
      LinksOf(e, mostRecent, oldest, was, k);
      Ends(e, was);
      current := DetachOldest();
      ghost var e1, m := entry, Heads(mostRecent, oldest, freeEntry, freeHash);
      CutOffEntries(e, e1, was);
      gone := Told(entry, current, true);
      ToldSame(e, e1, current);
      oldest := entry[current].previous;
      LinkFirst(current, item, was);
      order := ToFront(was, k);
      BeforeIs(was, k);
      RecycledSound(e, e1, entry, link, firstHash, m, Heads(mostRecent, oldest, freeEntry, freeHash), was, k, spare,
                    table, dohash, item);
      ToFrontIs(was, k);
      Seen(current);
    }

    lemma NotTold(e: seq<Entry>, x: int)
      ensures Told(e, x, false) == []
    {
    }

    lemma ToldSame(e: seq<Entry>, now: seq<Entry>, x: int)
      requires |e| == |now| && 0 <= x < |e| && e[x] == now[x]
      ensures Told(e, x, true) == Told(now, x, true)
    {
    }

    /** Enter an item that is not cached, in a free entry or else in that of the oldest item. */
    method EnterCache(item: Item, same: (Item, Item) -> bool) returns (current: int, gone: seq<Item>)
      requires Valid() && HashAgrees(same) && Equality(same) && NoTwo(Items(), same)
      modifies `entry, `link, `firstHash, `mostRecent, `oldest, `freeEntry, `freeHash, `dohash, `table, `order,
        `spare, `writeCount
      ensures Valid() && Items() == Entered(old(Items()), item, same, |entry|) && dohash == old(dohash)
      ensures |entry| == |old(entry)|
      ensures match Find(old(Items()), item, same)
              case None => order != [] && current == order[0]
              case Some(k) => order == old(order) && current == order[k]
      ensures gone == Told(old(entry), old(oldest), Find(old(Items()), item, same).None? && |old(order)| == |entry|)
      ensures writeCount == old(writeCount) + 1
    {
      hide *;
      Seen(NULL);
      SoundParts(entry, link, firstHash, Heads(mostRecent, oldest, freeEntry, freeHash), order, spare, table, dohash,
                 NULL);
      EnteredIs(Items(), item, same, |entry|);
      current := Lookup(item, same);
      gone := [];
      NotTold(entry, oldest);
      if current == NULL {
        if freeEntry != NULL {
          current := TakeFree(item);
        } else {
          current, gone := Recycle(item);
        }
        IndexEntry(current);
      }
      Seen(NULL);
      writeCount := writeCount + 1;
      Seen(NULL);
    }

    /** Unlink the entry at position k, and put it in front of the free list. */
    method UnlinkFree(current: int, ghost k: nat)
      requires k < |order| && order[k] == current && LruList(entry, mostRecent, oldest, order)
      modifies `entry, `mostRecent, `oldest, `freeEntry
      ensures Freed(old(entry), entry, order, k, old(freeEntry)) && freeEntry == current && |entry| == |old(entry)|
      ensures mostRecent == if k == 0 then After(order, 0) else old(mostRecent)
      ensures oldest == if k + 1 == |order| then Before(order, k) else old(oldest)
    {
      LinksOf(entry, mostRecent, oldest, order, k);
      hide LruList, LruAt;
      var previous := entry[current].previous;
      if entry[current].next != NULL {
        entry := entry[entry[current].next := entry[entry[current].next].(previous := entry[current].previous)];
      } else {
        oldest := entry[current].previous;
      }
      if previous != NULL {
        entry := entry[previous := entry[previous].(next := entry[current].next)];
      } else {
        mostRecent := entry[current].next;
      }
      entry := entry[current := entry[current].(next := freeEntry)];
      freeEntry := current;
    }

    /** Move an entry, which is not indexed any more, to the free list. */
    method DoInvalidate(current: int, tell: bool, ghost k: nat) returns (gone: seq<Item>)
      requires k < |order| && order[k] == current && ValidBut(current)
      modifies `entry, `mostRecent, `oldest, `freeEntry, `order, `spare
      ensures Valid() && order == Without(old(order), k) && Items() == Without(old(Items()), k)
              && |entry| == |old(entry)|
      ensures spare == [current] + old(spare) && gone == Told(old(entry), current, tell)
              && SamePayloads(entry, old(entry))
    {
      hide *;
      ghost var was, e, m, kept := order, entry, Heads(mostRecent, oldest, freeEntry, freeHash), spare;
      Seen(current);
      SoundParts(e, link, firstHash, m, was, kept, table, dohash, current);
      gone := Told(entry, current, tell);
      UnlinkFree(current, k);
      FreedSame(e, entry, was, k, m.freeEntry);
      order, spare := Without(was, k), [current] + spare;
      FreedSound(e, entry, link, firstHash, m, Heads(mostRecent, oldest, freeEntry, freeHash), was, k, kept,
                 table, dohash);
      Seen(NULL);
    }

    /** Drop an entry from the index and move it to the free list. */
    method Discard(current: int, hash: int, tell: bool, ghost k: nat) returns (gone: seq<Item>)
      requires Valid() && k < |order| && order[k] == current && 0 <= current < |entry|
      requires dohash.Some? ==> hash == dohash.value(entry[current].payload)
      modifies `entry, `link, `firstHash, `mostRecent, `oldest, `freeEntry, `freeHash, `dohash, `table, `order, `spare
      ensures Valid() && order == Without(old(order), k) && Items() == Without(old(Items()), k)
              && |entry| == |old(entry)|
      ensures dohash == old(dohash) && gone == Told(old(entry), current, tell) && SamePayloads(entry, old(entry))
      ensures dohash.Some? ==>
              var i := ChainPosition(old(table), current, hash); i.Some? && table == Dropped(old(table), hash, i.value)
    {
      hide *;
      Seen(NULL);
      assert order[k] in order;
      Unindex(current, hash, entry);
      Seen(current);
      gone := DoInvalidate(current, tell, k);
    }

    /** Remove an entry. */
    method RemoveCache(current: int, tell: bool, ghost k: nat) returns (count: nat, gone: seq<Item>)
      requires Valid() && k < |order| && order[k] == current
      modifies `entry, `link, `firstHash, `mostRecent, `oldest, `freeEntry, `freeHash, `dohash, `table, `order, `spare
      ensures Valid() && order == Without(old(order), k) && Items() == Without(old(Items()), k)
              && |entry| == |old(entry)|
      ensures dohash == old(dohash) && count == 1 && gone == Told(old(entry), current, tell)
    {
      hide *;
      Seen(NULL);
      PayloadAt(entry, order, k);
      var hash := if dohash.Some? then dohash.value(entry[current].payload) else 0;
      gone := Discard(current, hash, tell, k);
      count := 1;
    }

    /** Search sequentially in the LRU list, and remove what is looked for. */
    method InvalidateLru(item: Item, selects: (Item, Item) -> bool, tell: bool) returns (count: nat, gone: seq<Item>)
      requires Valid()
      modifies `entry, `link, `firstHash, `mostRecent, `oldest, `freeEntry, `freeHash, `dohash, `table, `order, `spare
      ensures Valid() && Clearing(old(Items()), Items(), item, selects, tell && dofree, count, gone)
      ensures forall i :: 0 <= i < |Items()| ==> !selects(Items()[i], item)
      ensures dohash == old(dohash) && |entry| == |old(entry)|
    {
      hide *;
      Seen(NULL);
      ghost var items, k := Items(), 0;
      var current := mostRecent;
      count, gone := 0, [];
      NotYet(items, item, selects, tell && dofree);
      SoundParts(entry, link, firstHash, Heads(mostRecent, oldest, freeEntry, freeHash), order, spare, table, dohash,
                 NULL);
      while current != NULL
        invariant Valid() && Nodes(order, |entry|)
                  && Clearing(items, Items(), item, selects, tell && dofree, count, gone)
        invariant dohash == old(dohash) && |entry| == |old(entry)|
        invariant 0 <= k <= |order| == |Items()| && current == (if k < |order| then order[k] else NULL)
        invariant current == NULL ==> k == |order|
        invariant forall i :: 0 <= i < k ==> !selects(Items()[i], item)
        decreases |order| - k
      {
        Seen(NULL);
        SoundParts(entry, link, firstHash, Heads(mostRecent, oldest, freeEntry, freeHash), order, spare, table,
                   dohash, NULL);
        PayloadAt(entry, order, k);
        LinksOf(entry, mostRecent, oldest, order, k);
        if selects(entry[current].payload, item) {
          var next := entry[current].next;
          var hash := if dohash.Some? then dohash.value(entry[current].payload) else 0;
          ClearingMore(items, Items(), k, item, selects, tell && dofree, count, gone);
          ToldIs(entry, current, tell);
          var told := Discard(current, hash, tell, k);
          Seen(NULL);
          gone := gone + told;
          current := next;
          count := count + 1;
        } else {
          current := entry[current].next;
          k := k + 1;
        }
      }
    }

    /** Search the chain with the hash of what is looked for, and remove it. */
    method InvalidateHash(item: Item, selects: (Item, Item) -> bool, tell: bool) returns (count: nat, gone: seq<Item>)
      requires Valid() && dohash.Some? && Agrees(dohash.value, selects)
      modifies `entry, `link, `firstHash, `mostRecent, `oldest, `freeEntry, `freeHash, `dohash, `table, `order, `spare
      ensures Valid() && Clearing(old(Items()), Items(), item, selects, tell && dofree, count, gone)
      ensures forall i :: 0 <= i < |Items()| ==> !selects(Items()[i], item)
      ensures dohash == old(dohash) && |entry| == |old(entry)|
    {
      hide *;
      Seen(NULL);
      ghost var items, k := Items(), 0;
      var h := dohash.value(item);
      ChainStart(entry, link, firstHash, Heads(mostRecent, oldest, freeEntry, freeHash), order, spare, table,
                 dohash.value, item, selects);
      var l := firstHash[h];
      count, gone := 0, [];
      NotYet(items, item, selects, tell && dofree);
      while l != NULL
        invariant Valid() && Nodes(order, |entry|)
                  && Clearing(items, Items(), item, selects, tell && dofree, count, gone)
        invariant dohash == old(dohash) && |entry| == |old(entry)|
        invariant ChainFrom(table, h, k, l) && Passed(entry, table, h, k, item, selects)
        decreases ChainLeft(table, h, k)
      {
        Seen(NULL);
        ChainStep(entry, link, firstHash, Heads(mostRecent, oldest, freeEntry, freeHash), order, spare, table,
                  dohash.value, h, k, l);
        LeftOf(table, h, k);
        if !selects(entry[link[l].entry].payload, item) {
          PassedMore(entry, table, h, k, item, selects);
          l := link[l].next;
          k := k + 1;
        } else {
          var current := link[l].entry;
          l := link[l].next;
          ghost var at := InUse(entry, order, current);
          ghost var e, t := entry, table;
          ClearingMore(items, Items(), at, item, selects, tell && dofree, count, gone);
          var told := Discard(current, h, tell, at);
          Seen(NULL);
          ToldIs(e, current, tell);
          PassedStill(e, entry, t, h, k, item, selects);
          gone := gone + told;
          count := count + 1;
        }
      }
      Seen(NULL);
      ChainDone(entry, link, firstHash, Heads(mostRecent, oldest, freeEntry, freeHash), order, spare, table,
                dohash.value, k, item,
                selects);
    }

    lemma ToldIs(e: seq<Entry>, x: int, tell: bool)
      requires 0 <= x < |e|
      ensures Told(e, x, tell) == if tell && dofree then [e[x].payload] else []
    {
    }

    /** Remove all that is looked for: by the hash chain, unless this is not wanted or there is no hashing. */
    method InvalidateCache(item: Item, selects: (Item, Item) -> bool, tell: bool, nohash: bool)
      returns (count: nat, gone: seq<Item>)
      requires Valid() && (nohash || HashAgrees(selects))
      modifies `entry, `link, `firstHash, `mostRecent, `oldest, `freeEntry, `freeHash, `dohash, `table, `order, `spare
      ensures Valid() && Items() == Invalidated(old(Items()), item, selects) && count == |old(Items())| - |Items()|
      ensures |gone| == (if tell && dofree then count else 0) && forall i :: 0 <= i < |gone| ==> selects(gone[i], item)
      ensures dohash == old(dohash) && |entry| == |old(entry)|
    {
      ghost var items := Items();
      count, gone := 0, [];
      if !nohash && dohash.Some? {
        count, gone := InvalidateHash(item, selects, tell);
      }
      if nohash || dohash.None? {
        count, gone := InvalidateLru(item, selects, tell);
      }
      ClearingDone(items, Items(), item, selects, tell && dofree, count, gone);
    }

    /** Create a cache: all entries and links are free. */
    constructor (itemCount: nat, maxHash: nat, hash: Option<Item -> int>, dofree: bool)
      requires itemCount >= 2
      requires hash.Some? && maxHash > 0 ==> forall x :: 0 <= hash.value(x) < maxHash
      ensures Valid() && Items() == [] && |entry| == itemCount && this.dofree == dofree
      ensures dohash == if maxHash > 0 then hash else None
    {
      this.dofree := dofree;
      dohash := if maxHash > 0 then hash else None;
      entry := seq(itemCount, _ => Entry(NULL, NULL, Item([], [])));
      link := seq(itemCount, _ => Link(NULL, NULL));
      firstHash := seq(maxHash, _ => NULL);
      mostRecent, oldest, freeEntry, freeHash := NULL, NULL, 0, if maxHash > 0 then 0 else NULL;
      hitCount, readCount, writeCount := 0, 0, 0;
      order, spare := [], seq(itemCount, i => i);
      table := Table(seq(maxHash, _ => []), seq(maxHash, _ => []), seq(itemCount, i => i), {});
      new;
      var i := 0;
      while i < itemCount - 1
        invariant 0 <= i < itemCount && |entry| == itemCount && forall j :: 0 <= j < i ==> entry[j].next == j + 1
        invariant entry[itemCount - 1].next == NULL
        modifies `entry
      {
        entry := entry[i := entry[i].(next := i + 1)];
        i := i + 1;
      }
      if maxHash > 0 {
        i := 0;
        while i < itemCount - 1
          invariant 0 <= i < itemCount && |link| == itemCount && forall j :: 0 <= j < i ==> link[j].next == j + 1
          invariant link[itemCount - 1].next == NULL
          modifies `link
        {
          link := link[i := link[i].(next := i + 1)];
          i := i + 1;
        }
      }
      NewSound(entry, link, firstHash, freeHash, spare, table, dohash);
    }
  }
}
