/** The lists of an LRU cache: entries in a doubly linked LRU list or in a free list, and the chains of hash
  * links. Entries and links are numbered by their position in the block allocated for them. */
module CacheLists {
  import opened Bytes
  import opened Seqs
  import opened Links
  import opened CacheSpec

  datatype Entry = Entry(next: int, previous: int, payload: Item)
  datatype Link = Link(next: int, entry: int)

  function Before(s: seq<int>, i: nat): int
    requires i < |s|
  {
    if i > 0 then s[i - 1] else NULL
  }

  function Last(s: seq<int>): int {
    if s == [] then NULL else s[|s| - 1]
  }

  /** Distinct numbers below n. */
  ghost predicate Nodes(s: seq<int>, n: int) {
    && (forall i :: 0 <= i < |s| ==> 0 <= s[i] < n)
    && (forall i, j :: 0 <= i < j < |s| ==> s[i] != s[j])
  }

  /** Where x first occurs. */
  ghost function PositionIn(s: seq<int>, x: int): (k: nat)
    requires x in s
    ensures k < |s| && s[k] == x && forall i :: 0 <= i < k ==> s[i] != x
  {
    if s[0] == x then 0 else PositionIn(s[1..], x) + 1
  }

  lemma PositionUnique(s: seq<int>, x: int, k: nat)
    requires k < |s| && s[k] == x && forall i :: 0 <= i < k ==> s[i] != x
    ensures x in s && PositionIn(s, x) == k
  {
  }

  ghost predicate LruAt(e: seq<Entry>, order: seq<int>, i: nat)
    requires i < |order| && 0 <= order[i] < |e|
  {
    e[order[i]].next == After(order, i) && e[order[i]].previous == Before(order, i)
  }

  /** The entries in use, linked both ways in this order. */
  ghost predicate LruList(e: seq<Entry>, mostRecent: int, oldest: int, order: seq<int>) {
    && Nodes(order, |e|) && mostRecent == First(order) && oldest == Last(order)
    && forall i :: 0 <= i < |order| ==> LruAt(e, order, i)
  }

  /** The free entries, linked by next. */
  ghost predicate FreeList(e: seq<Entry>, freeEntry: int, spare: seq<int>) {
    && Nodes(spare, |e|) && freeEntry == First(spare)
    && forall i :: 0 <= i < |spare| ==> e[spare[i]].next == After(spare, i)
  }

  /** Each of the n entries is in use or free, not both. */
  ghost predicate Apart(order: seq<int>, spare: seq<int>, n: int) {
    (forall i :: 0 <= i < |order| ==> order[i] !in spare) && |order| + |spare| == n
  }

  /** What is cached, the most recent item first. */
  ghost function Payloads(e: seq<Entry>, order: seq<int>): (items: seq<Item>)
    requires Nodes(order, |e|)
    ensures |items| == |order| && forall i :: 0 <= i < |order| ==> items[i] == e[order[i]].payload
  {
    seq(|order|, i requires 0 <= i < |order| => e[order[i]].payload)
  }

  ghost predicate LinkList(link: seq<Link>, first: int, chain: seq<int>) {
    && Nodes(chain, |link|) && first == First(chain)
    && forall i :: 0 <= i < |chain| ==> link[chain[i]].next == After(chain, i)
  }

  /** Chain number b: its links, and the entries they point to. These are the indexed entries with this hash. */
  ghost predicate Bucket(e: seq<Entry>, link: seq<Link>, first: int, chain: seq<int>, bucket: seq<int>,
                               b: int, freeLinks: seq<int>, indexed: set<int>, h: Item -> int) {
    && LinkList(link, first, chain) && |bucket| == |chain| && Nodes(bucket, |e|)
    && (forall i :: 0 <= i < |chain| ==> link[chain[i]].entry == bucket[i] && chain[i] !in freeLinks)
    && (forall x :: 0 <= x < |e| ==> (x in bucket <==> x in indexed && h(e[x].payload) == b))
  }

  /** The hash table: for each hash value the links of its chain and the entries they point to, the free
    * links, and the entries indexed. */
  datatype Table = Table(chains: seq<seq<int>>, buckets: seq<seq<int>>, freeLinks: seq<int>, indexed: set<int>)

  ghost predicate BucketAt(e: seq<Entry>, link: seq<Link>, firstHash: seq<int>, t: Table, h: Item -> int, b: nat)
    requires b < |firstHash| == |t.chains| == |t.buckets|
  {
    Bucket(e, link, firstHash[b], t.chains[b], t.buckets[b], b, t.freeLinks, t.indexed, h)
  }

  /** Every indexed entry has one link, in the chain of its hash; the other links are free. */
  ghost predicate Index(e: seq<Entry>, link: seq<Link>, firstHash: seq<int>, freeHash: int, t: Table,
                              h: Item -> int) {
    && |t.chains| == |t.buckets| == |firstHash| && |link| == |e| && LinkList(link, freeHash, t.freeLinks)
    && (forall b :: 0 <= b < |firstHash| ==> BucketAt(e, link, firstHash, t, h, b))
    && (forall x :: x in t.indexed ==> 0 <= x < |e|) && |t.freeLinks| + |t.indexed| == |e|
  }

  ghost function Below(n: nat): (s: set<int>)
    ensures forall x :: x in s <==> 0 <= x < n
  {
    if n == 0 then {} else Below(n - 1) + {n - 1}
  }

  lemma {:induction false} BelowN(s: set<int>, n: nat)
    requires s <= Below(n)
    ensures |s| <= n
  {
    if n > 0 {
      BelowN(s - {n - 1}, n - 1);
    }
  }

  /** As long as some entry is not indexed, a link is free for it. */
  lemma LinkFree(e: seq<Entry>, link: seq<Link>, firstHash: seq<int>, freeHash: int, t: Table,
                       h: Item -> int, x: int)
    requires Index(e, link, firstHash, freeHash, t, h) && 0 <= x < |e| && x !in t.indexed
    ensures t.freeLinks != []
  {
    assert forall y :: y in t.indexed + {x} ==> y in Below(|e|);
    BelowN(t.indexed + {x}, |e|);
  }

  /** The table with a link for entry x put first in chain b. */
  function Added(t: Table, x: int, b: nat): Table
    requires t.freeLinks != [] && b < |t.chains| == |t.buckets|
  {
    Table(t.chains[b := [t.freeLinks[0]] + t.chains[b]], t.buckets[b := [x] + t.buckets[b]], t.freeLinks[1..],
          t.indexed + {x})
  }

  lemma BucketKept(e: seq<Entry>, link: seq<Link>, now: seq<Link>, first: int, chain: seq<int>,
                         bucket: seq<int>, c: int, t: Table, t': Table, h: Item -> int, l: int, x: int)
    requires Bucket(e, link, first, chain, bucket, c, t.freeLinks, t.indexed, h)
    requires |now| == |link| && (forall j :: 0 <= j < |link| && j != l ==> now[j] == link[j]) && l !in chain
    requires 0 <= x < |e| && h(e[x].payload) != c
    requires (forall y :: y in t.indexed ==> y == x || y in t'.indexed)
             && (forall y :: y in t'.indexed ==> y == x || y in t.indexed)
    requires forall j :: j in t'.freeLinks ==> j in t.freeLinks || j == l
    ensures Bucket(e, now, first, chain, bucket, c, t'.freeLinks, t'.indexed, h)
  {
    assert forall i :: 0 <= i < |chain| ==> chain[i] in chain;
  }

  lemma BucketMore(e: seq<Entry>, link: seq<Link>, now: seq<Link>, first: int, chain: seq<int>,
                         bucket: seq<int>, b: int, t: Table, h: Item -> int, x: int)
    requires Bucket(e, link, first, chain, bucket, b, t.freeLinks, t.indexed, h) && t.freeLinks != []
    requires 0 <= x < |e| && x !in t.indexed && h(e[x].payload) == b && Nodes(t.freeLinks, |link|)
    requires now == link[t.freeLinks[0] := Link(first, x)]
    ensures Bucket(e, now, t.freeLinks[0], [t.freeLinks[0]] + chain, [x] + bucket, b, t.freeLinks[1..],
                   t.indexed + {x}, h)
  {
  }

  /** The first free link becomes the first of chain b, for entry x. */
  lemma AddedIndex(e: seq<Entry>, link: seq<Link>, now: seq<Link>, firstHash: seq<int>, freeHash: int,
                         t: Table, h: Item -> int, x: int, b: nat)
    requires Index(e, link, firstHash, freeHash, t, h) && t.freeLinks != []
    requires 0 <= x < |e| && x !in t.indexed && h(e[x].payload) == b < |firstHash|
    requires now == link[t.freeLinks[0] := Link(firstHash[b], x)]
    ensures Index(e, now, firstHash[b := t.freeLinks[0]], After(t.freeLinks, 0), Added(t, x, b), h)
  {
    var l, t' := t.freeLinks[0], Added(t, x, b);
    var first' := firstHash[b := l];
    forall c | 0 <= c < |firstHash|
      ensures BucketAt(e, now, first', t', h, c)
    {
      assert BucketAt(e, link, firstHash, t, h, c);
      if c == b {
        BucketMore(e, link, now, firstHash[b], t.chains[b], t.buckets[b], b, t, h, x);
      } else {
        BucketKept(e, link, now, firstHash[c], t.chains[c], t.buckets[c], c, t, t', h, l, x);
      }
    }
  }

  /** The table without the link at position k of chain b. */
  function Dropped(t: Table, b: nat, k: nat): Table
    requires b < |t.chains| == |t.buckets| && k < |t.chains[b]| == |t.buckets[b]|
  {
    Table(t.chains[b := Without(t.chains[b], k)], t.buckets[b := Without(t.buckets[b], k)],
          [t.chains[b][k]] + t.freeLinks, t.indexed - {t.buckets[b][k]})
  }

  /** Where an entry is in the chain with this number, if there is such a chain and it is there. */
  ghost function ChainPosition(t: Table, x: int, hash: int): (k: Option<nat>)
    ensures k.Some? ==> 0 <= hash < |t.chains| == |t.buckets| && k.value < |t.chains[hash]| == |t.buckets[hash]|
    ensures k.Some? ==> t.buckets[hash][k.value] == x
  {
    if 0 <= hash < |t.chains| == |t.buckets| && |t.chains[hash]| == |t.buckets[hash]| && x in t.buckets[hash]
    then Some(PositionIn(t.buckets[hash], x))
    else None
  }

  /** What unlinking does to the links. */
  ghost predicate Unlinked(link: seq<Link>, now: seq<Link>, chain: seq<int>, k: nat, freeHash: int)
    requires k < |chain|
  {
    && |now| == |link|
    && forall j :: 0 <= j < |link| ==> now[j] == link[j].(
         next := if j == chain[k] then freeHash
                 else if k > 0 && j == chain[k - 1] then After(chain, k)
                 else link[j].next)
  }

  lemma ChainLessAt(link: seq<Link>, now: seq<Link>, chain: seq<int>, k: nat, freeHash: int, i: nat)
    requires Nodes(chain, |link|) && k < |chain| && Unlinked(link, now, chain, k, freeHash) && i < |chain| - 1
    requires var j := if i < k then i else i + 1; link[chain[j]].next == After(chain, j)
    ensures now[Without(chain, k)[i]].next == After(Without(chain, k), i)
  {
  }

  lemma ChainLess(link: seq<Link>, now: seq<Link>, first: int, chain: seq<int>, k: nat, freeHash: int)
    requires LinkList(link, first, chain) && k < |chain| && Unlinked(link, now, chain, k, freeHash)
    ensures LinkList(now, if k == 0 then After(chain, 0) else first, Without(chain, k))
  {
    var rest := Without(chain, k);
    assert |now| == |link|;
    WithoutMembers(chain, |link|, k);
    hide Unlinked, Nodes;
    forall i | 0 <= i < |rest|
      ensures now[rest[i]].next == After(rest, i)
    {
      assert link[chain[if i < k then i else i + 1]].next == After(chain, if i < k then i else i + 1);
      ChainLessAt(link, now, chain, k, freeHash, i);
    }
  }

  lemma WithoutMembers(s: seq<int>, n: int, k: nat)
    requires Nodes(s, n) && k < |s|
    ensures Nodes(Without(s, k), n) && forall x :: x in Without(s, k) <==> x in s && x != s[k]
  {
    var rest := Without(s, k);
    forall x | x in s && x != s[k]
      ensures x in rest
    {
      var i :| 0 <= i < |s| && s[i] == x;
      assert rest[if i < k then i else i - 1] == x;
    }
  }

  lemma EntriesLess(link: seq<Link>, now: seq<Link>, chain: seq<int>, bucket: seq<int>, k: nat, freeHash: int,
                    spare: seq<int>)
    requires |bucket| == |chain| && Nodes(chain, |link|) && k < |chain| && Unlinked(link, now, chain, k, freeHash)
    requires forall i :: 0 <= i < |chain| ==> link[chain[i]].entry == bucket[i] && chain[i] !in spare
    ensures var rest := Without(chain, k);
            forall i :: 0 <= i < |rest| ==> 0 <= rest[i] < |now| && now[rest[i]].entry == Without(bucket, k)[i]
                                            && rest[i] !in [chain[k]] + spare
  {
  }

  lemma BucketLess(e: seq<Entry>, link: seq<Link>, now: seq<Link>, first: int, chain: seq<int>,
                         bucket: seq<int>, b: int, t: Table, h: Item -> int, k: nat, freeHash: int)
    requires Bucket(e, link, first, chain, bucket, b, t.freeLinks, t.indexed, h)
    requires k < |chain| && Unlinked(link, now, chain, k, freeHash)
    ensures Bucket(e, now, if k == 0 then After(chain, 0) else first, Without(chain, k), Without(bucket, k), b,
                   [chain[k]] + t.freeLinks, t.indexed - {bucket[k]}, h)
  {
    ChainLess(link, now, first, chain, k, freeHash);
    WithoutMembers(bucket, |e|, k);
    EntriesLess(link, now, chain, bucket, k, freeHash, t.freeLinks);
    hide LinkList, Unlinked, Nodes;
  }

  /** The other chains share no link with chain b. */
  lemma OtherChain(e: seq<Entry>, link: seq<Link>, now: seq<Link>, firstHash: seq<int>, t: Table,
                         h: Item -> int, b: nat, c: nat, k: nat, freeHash: int)
    requires b < |firstHash| == |t.chains| == |t.buckets| && c < |firstHash| && b != c
    requires BucketAt(e, link, firstHash, t, h, b) && BucketAt(e, link, firstHash, t, h, c)
    requires k < |t.chains[b]| && Unlinked(link, now, t.chains[b], k, freeHash)
    ensures BucketAt(e, now, firstHash, Dropped(t, b, k), h, c)
  {
    var chain, other := t.chains[b], t.chains[c];
    forall i, j | 0 <= i < |chain| && 0 <= j < |other|
      ensures chain[i] != other[j]
    {
      assert t.buckets[b][i] in t.buckets[b] && t.buckets[c][j] in t.buckets[c];
    }
    assert forall j :: 0 <= j < |other| ==> now[other[j]] == link[other[j]];
  }

  lemma FreedLink(e: seq<Entry>, link: seq<Link>, now: seq<Link>, firstHash: seq<int>, freeHash: int,
                        t: Table, h: Item -> int, b: nat, k: nat)
    requires b < |firstHash| == |t.chains| == |t.buckets| && BucketAt(e, link, firstHash, t, h, b) && k < |t.chains[b]|
    requires Unlinked(link, now, t.chains[b], k, freeHash) && LinkList(link, freeHash, t.freeLinks)
    ensures LinkList(now, t.chains[b][k], [t.chains[b][k]] + t.freeLinks) && t.buckets[b][k] in t.indexed
  {
    var chain, freed := t.chains[b], [t.chains[b][k]] + t.freeLinks;
    assert t.buckets[b][k] in t.buckets[b];
    assert chain[k] !in t.freeLinks && (k > 0 ==> chain[k - 1] !in t.freeLinks);
    hide Bucket, Nodes;
    forall i | 0 <= i < |freed|
      ensures now[freed[i]].next == After(freed, i)
    {
      if i > 0 {
        assert freed[i] == t.freeLinks[i - 1] && freed[i] in t.freeLinks;
      }
    }
    assert Nodes(freed, |link|) by {
      FreedNodes(t.freeLinks, |link|, chain[k]);
    }
  }

  lemma FreedNodes(s: seq<int>, n: int, x: int)
    requires Nodes(s, n) && 0 <= x < n && x !in s
    ensures Nodes([x] + s, n)
  {
  }

  /** The link at position k of chain b goes to the free links. */
  lemma DroppedIndex(e: seq<Entry>, link: seq<Link>, now: seq<Link>, firstHash: seq<int>, freeHash: int,
                           t: Table, h: Item -> int, b: nat, k: nat)
    requires Index(e, link, firstHash, freeHash, t, h) && b < |firstHash| && k < |t.chains[b]|
    requires Unlinked(link, now, t.chains[b], k, freeHash)
    ensures BucketAt(e, link, firstHash, t, h, b)
    ensures Index(e, now, if k == 0 then firstHash[b := After(t.chains[b], 0)] else firstHash,
                  t.chains[b][k], Dropped(t, b, k), h)
  {
    assert BucketAt(e, link, firstHash, t, h, b);
    var x, t' := t.buckets[b][k], Dropped(t, b, k);
    var first' := if k == 0 then firstHash[b := After(t.chains[b], 0)] else firstHash;
    BucketLess(e, link, now, firstHash[b], t.chains[b], t.buckets[b], b, t, h, k, freeHash);
    FreedLink(e, link, now, firstHash, freeHash, t, h, b, k);
    assert BucketAt(e, now, first', t', h, b);
    assert |t'.freeLinks| + |t'.indexed| == |e|;
    hide Bucket, LinkList, Unlinked;
    forall c | 0 <= c < |firstHash|
      ensures BucketAt(e, now, first', t', h, c)
    {
      if c != b {
        assert BucketAt(e, link, firstHash, t, h, c);
        OtherChain(e, link, now, firstHash, t, h, b, c, k, freeHash);
        assert BucketAt(e, now, firstHash, t', h, c);
      }
    }
  }

  /** Only the entries of these positions have changed, and none of their payloads. */
  ghost predicate Relinked(now: seq<Entry>, was: seq<Entry>, order: seq<int>) {
    && |now| == |was|
    && (forall x :: 0 <= x < |now| ==> now[x].payload == was[x].payload)
    && (forall x :: 0 <= x < |now| && x !in order ==> now[x] == was[x])
  }

  function ToFront<T>(s: seq<T>, k: nat): (out: seq<T>)
    requires k < |s|
    ensures |out| == |s|
  {
    [s[k]] + Without(s, k)
  }

  lemma ToFrontIs(s: seq<int>, k: nat)
    requires k < |s|
    ensures |ToFront(s, k)| == |s| && ToFront(s, k)[0] == s[k]
  {
  }

  lemma BeforeIs(s: seq<int>, k: nat)
    requires k < |s|
    ensures Before(s, k) == if k > 0 then s[k - 1] else NULL
  {
  }

  /** What moving entry order[k] to the front does to the links. */
  ghost predicate Moved(e: seq<Entry>, now: seq<Entry>, order: seq<int>, k: nat)
    requires 0 < k < |order|
  {
    && |now| == |e|
    && forall x :: 0 <= x < |e| ==> now[x] == e[x].(
         next := if x == order[k] then order[0] else if x == order[k - 1] then After(order, k) else e[x].next,
         previous := if x == order[k] then NULL else if x == order[0] then order[k]
                     else if x == After(order, k) then order[k - 1] else e[x].previous)
  }

  lemma MovedAt(e: seq<Entry>, now: seq<Entry>, order: seq<int>, k: nat, i: nat)
    requires 0 < k < |order| && i < |order| && Nodes(order, |e|) && Moved(e, now, order, k)
    requires forall j :: 0 <= j < |order| ==> LruAt(e, order, j)
    ensures 0 <= ToFront(order, k)[i] < |now| && LruAt(now, ToFront(order, k), i)
  {
    if i > 0 {
      var j := if i <= k then i - 1 else i;
      assert LruAt(e, order, j);
    }
  }

  lemma ToFrontMembers(order: seq<int>, n: int, k: nat)
    requires Nodes(order, n) && k < |order|
    ensures Nodes(ToFront(order, k), n) && forall x :: x in ToFront(order, k) <==> x in order
  {
    WithoutMembers(order, n, k);
  }

  lemma MovedRelinked(e: seq<Entry>, now: seq<Entry>, order: seq<int>, k: nat)
    requires 0 < k < |order| && Moved(e, now, order, k)
    ensures Relinked(now, e, order)
  {
    assert order[0] in order && order[k] in order && order[k - 1] in order;
    assert k + 1 < |order| ==> order[k + 1] in order;
  }

  lemma MovedAll(e: seq<Entry>, now: seq<Entry>, order: seq<int>, k: nat)
    requires 0 < k < |order| && Nodes(order, |e|) && Moved(e, now, order, k)
    requires forall j :: 0 <= j < |order| ==> LruAt(e, order, j)
    ensures |now| == |e|
    ensures forall i :: 0 <= i < |order| ==> 0 <= ToFront(order, k)[i] < |now| && LruAt(now, ToFront(order, k), i)
  {
    assert |now| == |e|;
    hide Moved, LruAt, Nodes, ToFront;
    forall i | 0 <= i < |order|
      ensures |ToFront(order, k)| == |order| && 0 <= ToFront(order, k)[i] < |now| && LruAt(now, ToFront(order, k), i)
    {
      MovedAt(e, now, order, k, i);
    }
  }

  lemma ToFrontEnds(order: seq<int>, k: nat)
    requires 0 < k < |order|
    ensures First(ToFront(order, k)) == order[k] && |ToFront(order, k)| == |order|
    ensures Last(ToFront(order, k)) == if k + 1 == |order| then order[k - 1] else Last(order)
  {
  }

  lemma MovedList(e: seq<Entry>, now: seq<Entry>, mostRecent: int, oldest: int, order: seq<int>, k: nat)
    requires 0 < k < |order| && LruList(e, mostRecent, oldest, order) && Moved(e, now, order, k)
    ensures LruList(now, order[k], if k + 1 == |order| then order[k - 1] else oldest, ToFront(order, k))
    ensures Relinked(now, e, order)
  {
    MovedRelinked(e, now, order, k);
    ToFrontMembers(order, |e|, k);
    ToFrontEnds(order, k);
    MovedAll(e, now, order, k);
    hide Moved, LruAt, Relinked, Nodes, ToFront, First, Last;
  }

  /** Searching a bucket that holds every match finds what searching the LRU list finds. */
  lemma BucketFinds(e: seq<Entry>, order: seq<int>, bucket: seq<int>, k: nat, wanted: Item,
                                same: (Item, Item) -> bool)
    requires Nodes(order, |e|) && Nodes(bucket, |e|) && k <= |bucket|
    requires Equality(same) && NoTwo(Payloads(e, order), same)
    requires forall i :: 0 <= i < |bucket| ==> bucket[i] in order
    requires forall x :: x in order && same(e[x].payload, wanted) ==> x in bucket
    requires forall i :: 0 <= i < k ==> !same(e[bucket[i]].payload, wanted)
    requires k < |bucket| ==> same(e[bucket[k]].payload, wanted)
    ensures match Find(Payloads(e, order), wanted, same)
            case None => k == |bucket|
            case Some(j) => k < |bucket| && bucket[k] == order[j]
  {
    var items := Payloads(e, order);
    if k < |bucket| {
      assert bucket[k] in order;
      var i :| 0 <= i < |order| && order[i] == bucket[k];
      assert same(items[i], wanted);
    }
    if j: nat :| j < |order| && same(items[j], wanted) {
      assert order[j] in bucket;
    }
  }

  lemma FreeListStays(now: seq<Entry>, was: seq<Entry>, freeEntry: int, order: seq<int>, spare: seq<int>)
    requires FreeList(was, freeEntry, spare) && Apart(order, spare, |was|) && Relinked(now, was, order)
    ensures FreeList(now, freeEntry, spare)
  {
    forall i | 0 <= i < |spare|
      ensures now[spare[i]] == was[spare[i]]
    {
      assert spare[i] in spare;
    }
  }

  lemma IndexStays(now: seq<Entry>, was: seq<Entry>, link: seq<Link>, firstHash: seq<int>, freeHash: int,
                         t: Table, h: Item -> int)
    requires Index(was, link, firstHash, freeHash, t, h)
    requires |now| == |was| && forall x :: x in t.indexed ==> now[x].payload == was[x].payload
    ensures Index(now, link, firstHash, freeHash, t, h)
  {
    forall b | 0 <= b < |firstHash|
      ensures BucketAt(now, link, firstHash, t, h, b)
    {
      assert BucketAt(was, link, firstHash, t, h, b);
    }
  }

  datatype Heads = Heads(mostRecent: int, oldest: int, freeEntry: int, freeHash: int)

  /** Everything that is always true of a cache, but that entry `missing` (if not NULL) is not indexed. */
  ghost predicate Sound(e: seq<Entry>, link: seq<Link>, firstHash: seq<int>, m: Heads, order: seq<int>,
                                    spare: seq<int>, t: Table, dohash: Option<Item -> int>, missing: int) {
    && |e| >= 2 && LruList(e, m.mostRecent, m.oldest, order) && FreeList(e, m.freeEntry, spare)
      && Apart(order, spare, |e|)
    && (dohash.Some? ==> Searchable(e, link, firstHash, m.freeHash, order, t, dohash.value, missing))
  }

  /** The index holds exactly the entries in use, and the hash function is a proper one. */
  ghost predicate Searchable(e: seq<Entry>, link: seq<Link>, firstHash: seq<int>, freeHash: int,
                                         order: seq<int>, t: Table, h: Item -> int, missing: int) {
    && Index(e, link, firstHash, freeHash, t, h)
    && (forall x :: x in t.indexed <==> x in order && x != missing) && (forall x :: 0 <= h(x) < |firstHash|)
  }

  lemma PromotedPayloads(e: seq<Entry>, now: seq<Entry>, order: seq<int>, k: nat)
    requires Nodes(order, |e|) && k < |order| && Nodes(ToFront(order, k), |now|) && Relinked(now, e, order)
    ensures Payloads(now, ToFront(order, k)) == ToFront(Payloads(e, order), k)
  {
  }

  lemma ToFrontApart(order: seq<int>, spare: seq<int>, n: int, k: nat)
    requires Nodes(order, n) && Apart(order, spare, n) && k < |order|
    ensures Apart(ToFront(order, k), spare, n)
  {
  }

  lemma SearchableStays(e: seq<Entry>, now: seq<Entry>, link: seq<Link>, firstHash: seq<int>,
                                    freeHash: int, order: seq<int>, order': seq<int>, t: Table, h: Item -> int,
                                    missing: int, missing': int)
    requires Searchable(e, link, firstHash, freeHash, order, t, h, missing)
    requires |now| == |e| && forall x :: 0 <= x < |e| && x != missing' ==> now[x].payload == e[x].payload
    requires forall x :: x in order' && x != missing' <==> x in order && x != missing
    ensures Searchable(now, link, firstHash, freeHash, order', t, h, missing')
  {
    assert forall x :: x in t.indexed ==> 0 <= x < |e| && x != missing';
    IndexStays(now, e, link, firstHash, freeHash, t, h);
    hide Index;
  }

  lemma PromotedSound(e: seq<Entry>, now: seq<Entry>, link: seq<Link>, firstHash: seq<int>, m: Heads, m': Heads,
                      order: seq<int>, k: nat, spare: seq<int>, t: Table, dohash: Option<Item -> int>, missing: int)
    requires Sound(e, link, firstHash, m, order, spare, t, dohash, missing) && k < |order|
    requires LruList(now, m'.mostRecent, m'.oldest, ToFront(order, k)) && Relinked(now, e, order)
    requires m'.freeEntry == m.freeEntry && m'.freeHash == m.freeHash
    ensures Sound(now, link, firstHash, m', ToFront(order, k), spare, t, dohash, missing)
    ensures Payloads(now, ToFront(order, k)) == ToFront(Payloads(e, order), k)
  {
    hide LruAt, Searchable, Apart, FreeList, ToFront;
    ToFrontMembers(order, |e|, k);
    ToFrontApart(order, spare, |e|, k);
    PromotedPayloads(e, now, order, k);
    FreeListStays(now, e, m.freeEntry, order, spare);
    if dohash.Some? {
      SearchableStays(e, now, link, firstHash, m.freeHash, order, ToFront(order, k), t, dohash.value, missing, missing);
    }
  }

  /** Entry x gets new contents; it is not indexed. */
  lemma RefilledSound(e: seq<Entry>, now: seq<Entry>, link: seq<Link>, firstHash: seq<int>, m: Heads,
                      order: seq<int>, spare: seq<int>, t: Table, dohash: Option<Item -> int>, x: int, item: Item)
    requires Sound(e, link, firstHash, m, order, spare, t, dohash, x) && 0 <= x < |e| && First(order) == x
    requires now == e[x := e[x].(payload := item)]
    ensures Sound(now, link, firstHash, m, order, spare, t, dohash, x)
    ensures Payloads(now, order) == [item] + Payloads(e, order)[1..]
  {
    hide Searchable;
    assert forall i :: 0 <= i < |order| ==> LruAt(e, order, i) ==> LruAt(now, order, i);
    if dohash.Some? {
      SearchableStays(e, now, link, firstHash, m.freeHash, order, order, t, dohash.value, x, x);
    }
  }

  /** An entry taken from the free list and put in front of the LRU list. */
  ghost predicate Pushed(e: seq<Entry>, now: seq<Entry>, order: seq<int>, x: int, item: Item)
    requires 0 <= x < |e|
  {
    && |now| == |e| && now[x] == Entry(First(order), NULL, item)
    && forall y :: 0 <= y < |e| && y != x ==>
         now[y] == e[y].(previous := if y == First(order) then x else e[y].previous)
  }

  lemma PushedAt(e: seq<Entry>, now: seq<Entry>, order: seq<int>, x: int, item: Item, i: nat)
    requires Nodes(order, |e|) && 0 <= x < |e| && Pushed(e, now, order, x, item) && i <= |order|
    requires forall j :: 0 <= j < |order| ==> order[j] != x && LruAt(e, order, j)
    ensures 0 <= ([x] + order)[i] < |now| && LruAt(now, [x] + order, i)
  {
    if i > 0 {
      assert LruAt(e, order, i - 1);
    }
  }

  lemma PushedList(e: seq<Entry>, now: seq<Entry>, mostRecent: int, oldest: int, order: seq<int>, x: int, item: Item)
    requires LruList(e, mostRecent, oldest, order) && 0 <= x < |e| && x !in order && Pushed(e, now, order, x, item)
    ensures LruList(now, x, if order == [] then x else oldest, [x] + order)
    ensures Payloads(now, [x] + order) == [item] + Payloads(e, order)
  {
    assert forall i :: 0 <= i < |order| ==> order[i] in order;
    FreedNodes(order, |e|, x);
    assert Payloads(now, [x] + order) == [item] + Payloads(e, order);
    assert |now| == |e|;
    hide Pushed, LruAt;
    forall i | 0 <= i < |order| + 1
      ensures 0 <= ([x] + order)[i] < |now| && LruAt(now, [x] + order, i)
    {
      PushedAt(e, now, order, x, item, i);
    }
  }

  lemma PushedApart(order: seq<int>, spare: seq<int>, n: int)
    requires Nodes(order, n) && Nodes(spare, n) && Apart(order, spare, n) && spare != []
    ensures Apart([spare[0]] + order, spare[1..], n) && Nodes(spare[1..], n)
  {
    forall i | 0 <= i < |order| + 1
      ensures ([spare[0]] + order)[i] !in spare[1..]
    {
      if i > 0 {
        assert order[i - 1] !in spare;
      }
    }
  }

  lemma PushedFree(e: seq<Entry>, now: seq<Entry>, order: seq<int>, spare: seq<int>, freeEntry: int, item: Item)
    requires Nodes(order, |e|) && FreeList(e, freeEntry, spare) && Apart(order, spare, |e|) && spare != []
    requires Pushed(e, now, order, spare[0], item)
    ensures FreeList(now, After(spare, 0), spare[1..])
  {
    PushedApart(order, spare, |e|);
    var rest := spare[1..];
    forall i | 0 <= i < |rest|
      ensures now[rest[i]].next == After(rest, i)
    {
      assert rest[i] == spare[i + 1] && e[spare[i + 1]].next == After(spare, i + 1);
    }
  }

  lemma PushedSound(e: seq<Entry>, now: seq<Entry>, link: seq<Link>, firstHash: seq<int>, m: Heads, m': Heads,
                    order: seq<int>, spare: seq<int>, t: Table, dohash: Option<Item -> int>, item: Item)
    requires Sound(e, link, firstHash, m, order, spare, t, dohash, NULL) && spare != []
    requires Pushed(e, now, order, spare[0], item)
    requires m' == Heads(spare[0], if order == [] then spare[0] else m.oldest, After(spare, 0), m.freeHash)
    ensures Sound(now, link, firstHash, m', [spare[0]] + order, spare[1..], t, dohash, spare[0])
    ensures Payloads(now, [spare[0]] + order) == [item] + Payloads(e, order)
  {
    var x := spare[0];
    assert x in spare && x !in order;
    PushedFree(e, now, order, spare, m.freeEntry, item);
    PushedApart(order, spare, |e|);
    PushedList(e, now, m.mostRecent, m.oldest, order, x, item);
    hide LruAt, Searchable, Apart, FreeList;
    if dohash.Some? {
      SearchableStays(e, now, link, firstHash, m.freeHash, order, [x] + order, t, dohash.value, NULL, x);
    }
  }

  /** The links of an entry in use. */
  lemma LinksOf(e: seq<Entry>, mostRecent: int, oldest: int, order: seq<int>, k: nat)
    requires LruList(e, mostRecent, oldest, order) && k < |order|
    ensures 0 <= order[k] < |e| && e[order[k]].next == After(order, k) && e[order[k]].previous == Before(order, k)
    ensures After(order, k) == NULL <==> k + 1 == |order|
    ensures Before(order, k) == NULL <==> k == 0
    ensures After(order, k) != NULL ==> 0 <= After(order, k) < |e| && After(order, k) != order[k]
    ensures Before(order, k) != NULL ==> 0 <= Before(order, k) < |e| && Before(order, k) != order[k]
  {
    assert LruAt(e, order, k);
  }

  lemma FirstHasNoPrevious(e: seq<Entry>, mostRecent: int, oldest: int, order: seq<int>, k: nat)
    requires LruList(e, mostRecent, oldest, order) && k < |order|
    ensures e[order[k]].previous == NULL <==> k == 0
  {
    assert LruAt(e, order, k);
  }

  /** The index after a link for entry x was added, which was missing. */
  lemma AddedSound(e: seq<Entry>, link: seq<Link>, firstHash: seq<int>, link': seq<Link>,
                               firstHash': seq<int>, m: Heads, m': Heads, order: seq<int>, spare: seq<int>, t: Table,
                               h: Item -> int, x: int, b: nat)
    requires Sound(e, link, firstHash, m, order, spare, t, Some(h), x) && x in order && t.freeLinks != []
    requires b < |t.chains| == |t.buckets| && |firstHash'| == |firstHash|
    requires m' == m.(freeHash := m'.freeHash) && Index(e, link', firstHash', m'.freeHash, Added(t, x, b), h)
    ensures Sound(e, link', firstHash', m', order, spare, Added(t, x, b), Some(h), NULL)
  {
    hide Index, LruList, FreeList, Apart;
    assert NULL !in order by {
      NullNotIn(e, m, order);
    }
  }

  lemma NullNotIn(e: seq<Entry>, m: Heads, order: seq<int>)
    requires LruList(e, m.mostRecent, m.oldest, order)
    ensures NULL !in order
  {
  }

  /** The index after the link of entry x was dropped. */
  lemma DroppedSound(e: seq<Entry>, link: seq<Link>, firstHash: seq<int>, link': seq<Link>,
                                 firstHash': seq<int>, m: Heads, m': Heads, order: seq<int>, spare: seq<int>, t: Table,
                                 h: Item -> int, x: int, b: nat, k: nat)
    requires Sound(e, link, firstHash, m, order, spare, t, Some(h), NULL) && x in order
    requires b < |t.chains| == |t.buckets| && k < |t.chains[b]| == |t.buckets[b]| && t.buckets[b][k] == x
    requires |firstHash'| == |firstHash|
    requires m' == m.(freeHash := m'.freeHash) && Index(e, link', firstHash', m'.freeHash, Dropped(t, b, k), h)
    ensures Sound(e, link', firstHash', m', order, spare, Dropped(t, b, k), Some(h), x)
  {
    NullNotIn(e, m, order);
    hide Index, LruList, FreeList, Apart;
  }

  /** An entry in use is in the chain of its hash. */
  lemma InItsChain(e: seq<Entry>, link: seq<Link>, firstHash: seq<int>, m: Heads, order: seq<int>,
                               spare: seq<int>, t: Table, h: Item -> int, x: int)
    requires Sound(e, link, firstHash, m, order, spare, t, Some(h), NULL) && x in order
    ensures 0 <= x < |e| && ChainPosition(t, x, h(e[x].payload)).Some?
  {
    NullNotIn(e, m, order);
    assert BucketAt(e, link, firstHash, t, h, h(e[x].payload));
  }

  /** The link to the oldest entry is cut. */
  ghost predicate CutOff(e: seq<Entry>, now: seq<Entry>, order: seq<int>) {
    && |order| >= 2 && Nodes(order, |e|)
    && now == e[order[|order| - 2] := e[order[|order| - 2]].(next := NULL)]
  }

  /** The entries after the oldest one has been put in front and refilled. */
  lemma RecycledSound(e: seq<Entry>, e1: seq<Entry>, now: seq<Entry>, link: seq<Link>, firstHash: seq<int>,
                      m: Heads, m': Heads, order: seq<int>, k: nat, spare: seq<int>, t: Table,
                      dohash: Option<Item -> int>, item: Item)
    requires 0 < k == |order| - 1 && Sound(e, link, firstHash, m, order, spare, t, dohash, order[k])
    requires CutOff(e, e1, order) && Pushed(e1, now, order, order[k], item)
    requires m' == m.(mostRecent := order[k], oldest := order[k - 1])
    ensures Sound(now, link, firstHash, m', ToFront(order, k), spare, t, dohash, order[k])
    ensures Payloads(now, ToFront(order, k)) == [item] + Payloads(e, order)[..k]
  {
    var x := order[k];
    var now0 := now[x := now[x].(payload := e[x].payload)];
    assert Moved(e, now0, order, k);
    assert Nodes(ToFront(order, k), |e|) by {
      ToFrontMembers(order, |e|, k);
    }
    hide LruAt, Apart, Index, Searchable, FreeList, Pushed, Nodes;
    MovedList(e, now0, m.mostRecent, m.oldest, order, k);
    MovedRelinked(e, now0, order, k);
    hide Moved, Relinked, LruList;
    PromotedSound(e, now0, link, firstHash, m, m', order, k, spare, t, dohash, x);
    RefilledSound(now0, now, link, firstHash, m', ToFront(order, k), spare, t, dohash, x, item);
    assert Without(Payloads(e, order), k) == Payloads(e, order)[..k];
  }

  /** What freeing entry order[k] does to the links. */
  ghost predicate Freed(e: seq<Entry>, now: seq<Entry>, order: seq<int>, k: nat, freeEntry: int)
    requires k < |order|
  {
    && |now| == |e|
    && forall x :: 0 <= x < |e| ==> now[x] == e[x].(
         next := if x == order[k] then freeEntry else if x == Before(order, k) then After(order, k) else e[x].next,
         previous := if x == After(order, k) then Before(order, k) else e[x].previous)
  }

  lemma FreedAt(e: seq<Entry>, now: seq<Entry>, order: seq<int>, k: nat, freeEntry: int, i: nat)
    requires k < |order| && i < |order| - 1 && Nodes(order, |e|) && Freed(e, now, order, k, freeEntry)
    requires forall j :: 0 <= j < |order| ==> LruAt(e, order, j)
    ensures 0 <= Without(order, k)[i] < |now| && LruAt(now, Without(order, k), i)
  {
    assert LruAt(e, order, if i < k then i else i + 1);
  }

  lemma FreedAll(e: seq<Entry>, now: seq<Entry>, order: seq<int>, k: nat, freeEntry: int)
    requires k < |order| && Nodes(order, |e|) && Freed(e, now, order, k, freeEntry)
    requires forall j :: 0 <= j < |order| ==> LruAt(e, order, j)
    ensures |now| == |e|
    ensures forall i :: 0 <= i < |order| - 1 ==> 0 <= Without(order, k)[i] < |now| && LruAt(now, Without(order, k), i)
  {
    assert |now| == |e|;
    hide Freed, LruAt, Nodes;
    forall i | 0 <= i < |order| - 1
      ensures 0 <= Without(order, k)[i] < |now| && LruAt(now, Without(order, k), i)
    {
      FreedAt(e, now, order, k, freeEntry, i);
    }
  }

  lemma FreedSame(e: seq<Entry>, now: seq<Entry>, order: seq<int>, k: nat, freeEntry: int)
    requires k < |order| && Freed(e, now, order, k, freeEntry)
    ensures SamePayloads(now, e)
  {
  }

  lemma FreedPayloads(e: seq<Entry>, now: seq<Entry>, order: seq<int>, k: nat, freeEntry: int)
    requires k < |order| && Nodes(order, |e|) && Freed(e, now, order, k, freeEntry) && Nodes(Without(order, k), |now|)
    ensures Payloads(now, Without(order, k)) == Without(Payloads(e, order), k)
  {
  }

  lemma FreedEnds(order: seq<int>, k: nat)
    requires k < |order|
    ensures First(Without(order, k)) == if k == 0 then After(order, 0) else First(order)
    ensures Last(Without(order, k)) == if k + 1 == |order| then Before(order, k) else Last(order)
  {
  }

  lemma FreedList(e: seq<Entry>, now: seq<Entry>, m: Heads, order: seq<int>, k: nat)
    requires k < |order| && LruList(e, m.mostRecent, m.oldest, order) && Freed(e, now, order, k, m.freeEntry)
    ensures LruList(now, if k == 0 then After(order, 0) else m.mostRecent,
                    if k + 1 == |order| then Before(order, k) else m.oldest, Without(order, k))
    ensures Nodes(Without(order, k), |now|) && Payloads(now, Without(order, k)) == Without(Payloads(e, order), k)
  {
    WithoutMembers(order, |e|, k);
    FreedAll(e, now, order, k, m.freeEntry);
    FreedPayloads(e, now, order, k, m.freeEntry);
    FreedEnds(order, k);
    hide Freed, LruAt, Nodes, First, Last, After, Before;
  }

  lemma FreedFree(e: seq<Entry>, now: seq<Entry>, order: seq<int>, k: nat, spare: seq<int>, freeEntry: int)
    requires k < |order| && Nodes(order, |e|) && FreeList(e, freeEntry, spare) && Apart(order, spare, |e|)
    requires Freed(e, now, order, k, freeEntry)
    ensures FreeList(now, order[k], [order[k]] + spare) && Apart(Without(order, k), [order[k]] + spare, |e|)
  {
    FreedNodes(spare, |e|, order[k]);
    var more := [order[k]] + spare;
    forall i | 0 <= i < |more|
      ensures now[more[i]].next == After(more, i)
    {
      if i > 0 {
        assert more[i] == spare[i - 1] && spare[i - 1] in spare;
        assert k > 0 ==> order[k - 1] !in spare;
      }
    }
    WithoutMembers(order, |e|, k);
    var rest := Without(order, k);
    forall i | 0 <= i < |rest|
      ensures rest[i] !in more
    {
      assert rest[i] in rest && rest[i] == order[if i < k then i else i + 1];
    }
  }

  lemma FreedSound(e: seq<Entry>, now: seq<Entry>, link: seq<Link>, firstHash: seq<int>, m: Heads, m': Heads,
                   order: seq<int>, k: nat, spare: seq<int>, t: Table, dohash: Option<Item -> int>)
    requires k < |order| && Sound(e, link, firstHash, m, order, spare, t, dohash, order[k])
    requires Freed(e, now, order, k, m.freeEntry)
    requires m' == Heads(if k == 0 then After(order, 0) else m.mostRecent,
                         if k + 1 == |order| then Before(order, k) else m.oldest, order[k], m.freeHash)
    ensures Sound(now, link, firstHash, m', Without(order, k), [order[k]] + spare, t, dohash, NULL)
    ensures Payloads(now, Without(order, k)) == Without(Payloads(e, order), k)
  {
    NullNotIn(e, m, order);
    FreedList(e, now, m, order, k);
    FreedFree(e, now, order, k, spare, m.freeEntry);
    WithoutMembers(order, |e|, k);
    hide LruAt, Searchable, Apart, FreeList, LruList;
    if dohash.Some? {
      SearchableStays(e, now, link, firstHash, m.freeHash, order, Without(order, k), t, dohash.value, order[k], NULL);
    }
  }

  /** What follows at once from soundness. */
  lemma SoundParts(e: seq<Entry>, link: seq<Link>, firstHash: seq<int>, m: Heads, order: seq<int>, spare: seq<int>,
                   t: Table, dohash: Option<Item -> int>, missing: int)
    requires Sound(e, link, firstHash, m, order, spare, t, dohash, missing)
    ensures LruList(e, m.mostRecent, m.oldest, order) && Nodes(order, |e|) && |order| <= |e| && |e| >= 2
    ensures |Payloads(e, order)| == |order|
    ensures m.freeEntry == NULL <==> |order| == |e|
    ensures m.freeEntry == NULL <==> spare == []
    ensures m.oldest == NULL <==> order == []
    ensures m.mostRecent == if order == [] then NULL else order[0]
    ensures m.mostRecent == NULL <==> order == []
    ensures m.mostRecent == First(order) && m.oldest == Last(order) && m.freeEntry == First(spare)
  {
  }

  lemma Ends(e: seq<Entry>, order: seq<int>)
    requires Nodes(order, |e|) && |order| >= 2
    ensures First(order) == order[0] && Last(order) == order[|order| - 1] && order[0] != order[|order| - 1]
    ensures 0 <= order[0] < |e| && 0 <= order[|order| - 1] < |e| && 0 <= order[|order| - 2] < |e|
  {
  }

  lemma CutOffEntries(e: seq<Entry>, now: seq<Entry>, order: seq<int>)
    requires CutOff(e, now, order)
    ensures |now| == |e| && 0 <= order[|order| - 1] < |e| && now[order[|order| - 1]] == e[order[|order| - 1]]
  {
  }

  /** Where entry x is in use, and what is cached there. */
  lemma InUse(e: seq<Entry>, order: seq<int>, x: int) returns (k: nat)
    requires Nodes(order, |e|) && x in order
    ensures k < |order| && order[k] == x && 0 <= x < |e| && Payloads(e, order)[k] == e[x].payload
  {
    k :| 0 <= k < |order| && order[k] == x;
  }

  lemma PayloadAt(e: seq<Entry>, order: seq<int>, k: nat)
    requires Nodes(order, |e|) && k < |order|
    ensures 0 <= order[k] < |e| && Payloads(e, order)[k] == e[order[k]].payload && |Payloads(e, order)| == |order|
    ensures (k + 1 < |order| ==> order[k + 1] >= 0) && After(order, k) == if k + 1 < |order| then order[k + 1] else NULL
  {
  }

  ghost predicate SamePayloads(now: seq<Entry>, was: seq<Entry>) {
    |now| == |was| && forall x :: 0 <= x < |now| ==> now[x].payload == was[x].payload
  }

  /** The hash function does not tell apart what the comparison takes for equal. */
  ghost predicate Agrees(h: Item -> int, same: (Item, Item) -> bool) {
    forall x, y :: same(x, y) ==> h(x) == h(y)
  }

  /** Link l is at position k of chain b, or the chain ends there. */
  ghost predicate ChainFrom(t: Table, b: int, k: nat, l: int) {
    && 0 <= b < |t.chains| == |t.buckets| && k <= |t.chains[b]| == |t.buckets[b]|
    && l == (if k < |t.chains[b]| then t.chains[b][k] else NULL)
    && (l == NULL ==> k == |t.chains[b]|)
  }

  /** The first k entries of chain b are not looked for. */
  ghost predicate Passed(e: seq<Entry>, t: Table, b: int, k: nat, item: Item, selects: (Item, Item) -> bool) {
    && 0 <= b < |t.buckets| && k <= |t.buckets[b]|
    && forall i :: 0 <= i < k ==> 0 <= t.buckets[b][i] < |e| && !selects(e[t.buckets[b][i]].payload, item)
  }

  function ChainLeft(t: Table, b: int, k: nat): int {
    if 0 <= b < |t.chains| then |t.chains[b]| - k else 0
  }

  lemma LeftOf(t: Table, b: int, k: nat)
    requires 0 <= b < |t.chains| == |t.buckets| && k < |t.chains[b]| == |t.buckets[b]|
    ensures 0 <= ChainLeft(t, b, k + 1) < ChainLeft(t, b, k) && ChainLeft(Dropped(t, b, k), b, k) < ChainLeft(t, b, k)
  {
  }

  lemma ChainStart(e: seq<Entry>, link: seq<Link>, firstHash: seq<int>, m: Heads, order: seq<int>, spare: seq<int>,
                   t: Table, h: Item -> int, item: Item, selects: (Item, Item) -> bool)
    requires Sound(e, link, firstHash, m, order, spare, t, Some(h), NULL)
    ensures 0 <= h(item) < |firstHash| && ChainFrom(t, h(item), 0, firstHash[h(item)])
            && Passed(e, t, h(item), 0, item, selects)
  {
    assert BucketAt(e, link, firstHash, t, h, h(item));
  }

  lemma ChainStep(e: seq<Entry>, link: seq<Link>, firstHash: seq<int>, m: Heads, order: seq<int>, spare: seq<int>,
                  t: Table, h: Item -> int, b: int, k: nat, l: int)
    requires Sound(e, link, firstHash, m, order, spare, t, Some(h), NULL) && ChainFrom(t, b, k, l) && l != NULL
    ensures k < |t.chains[b]| && 0 <= l < |link|
    ensures var x, l' := link[l].entry, link[l].next;
            && x == t.buckets[b][k] && x in order && 0 <= x < |e| && h(e[x].payload) == b
            && ChainFrom(t, b, k + 1, l') && ChainPosition(t, x, b) == Some(k) && ChainFrom(Dropped(t, b, k), b, k, l')
  {
    assert BucketAt(e, link, firstHash, t, h, b);
    var x := t.buckets[b][k];
    assert x in t.buckets[b];
    PositionUnique(t.buckets[b], x, k);
  }

  lemma PassedMore(e: seq<Entry>, t: Table, b: int, k: nat, item: Item, selects: (Item, Item) -> bool)
    requires Passed(e, t, b, k, item, selects) && k < |t.buckets[b]|
    requires 0 <= t.buckets[b][k] < |e| && !selects(e[t.buckets[b][k]].payload, item)
    ensures Passed(e, t, b, k + 1, item, selects)
  {
  }

  lemma PassedStill(e: seq<Entry>, now: seq<Entry>, t: Table, b: int, k: nat, item: Item, selects: (Item, Item) -> bool)
    requires Passed(e, t, b, k, item, selects) && SamePayloads(now, e)
    requires b < |t.chains| == |t.buckets| && k < |t.chains[b]| == |t.buckets[b]|
    ensures Passed(now, Dropped(t, b, k), b, k, item, selects)
  {
  }

  /** When the whole chain has been passed, nothing looked for is left. */
  lemma ChainDone(e: seq<Entry>, link: seq<Link>, firstHash: seq<int>, m: Heads, order: seq<int>, spare: seq<int>,
                  t: Table, h: Item -> int, k: nat, item: Item, selects: (Item, Item) -> bool)
    requires Sound(e, link, firstHash, m, order, spare, t, Some(h), NULL) && Agrees(h, selects)
    requires ChainFrom(t, h(item), k, NULL) && Passed(e, t, h(item), k, item, selects)
    ensures Nodes(order, |e|)
    ensures forall i :: 0 <= i < |Payloads(e, order)| ==> !selects(Payloads(e, order)[i], item)
  {
    NullNotIn(e, m, order);
    forall i | 0 <= i < |order|
      ensures !selects(e[order[i]].payload, item)
    {
      var x, b := order[i], h(item);
      assert x in order && BucketAt(e, link, firstHash, t, h, b);
      if h(e[x].payload) == b {
        assert x in t.buckets[b];
      }
    }
  }

  /** A new cache, its entries and links chained in their order. */
  lemma NewSound(e: seq<Entry>, link: seq<Link>, firstHash: seq<int>, freeHash: int, spare: seq<int>, t: Table,
                 dohash: Option<Item -> int>)
    requires |e| >= 2 && spare == seq(|e|, i => i)
    requires forall i :: 0 <= i < |e| ==> e[i].next == if i + 1 < |e| then i + 1 else NULL
    requires dohash.Some? ==>
               && |link| == |e| && freeHash == 0
               && (forall i :: 0 <= i < |e| ==> link[i].next == if i + 1 < |e| then i + 1 else NULL)
               && firstHash == seq(|firstHash|, _ => NULL) && (forall x :: 0 <= dohash.value(x) < |firstHash|)
               && t == Table(seq(|firstHash|, _ => []), seq(|firstHash|, _ => []), seq(|e|, i => i), {})
    ensures Sound(e, link, firstHash, Heads(NULL, NULL, 0, freeHash), [], spare, t, dohash, NULL)
  {
    if dohash.Some? {
      forall b | 0 <= b < |firstHash|
        ensures BucketAt(e, link, firstHash, t, dohash.value, b)
      {
        assert firstHash[b] == NULL && t.chains[b] == [] && t.buckets[b] == [];
      }
    }
  }

  lemma {:induction false} CountNodes(order: seq<int>, n: int)
    requires Nodes(order, n)
    ensures |set x | x in order| == |order|
    decreases |order|
  {
    if order != [] {
      CountNodes(order[1..], n);
      assert (set x | x in order) == {order[0]} + set x | x in order[1..];
    }
  }

  lemma AllOf(s: set<int>, order: seq<int>)
    requires NULL !in order && forall x :: x in s <==> x in order && x != NULL
    ensures s == set x | x in order
  {
    var all := set x | x in order;
    assert forall x :: x in all <==> x in order;
    assert forall x :: x in s <==> x in all;
  }

  /** No entry and no hash link is ever lost: as many links are in chains as entries are in use. */
  lemma Conserved(e: seq<Entry>, link: seq<Link>, firstHash: seq<int>, m: Heads, order: seq<int>, spare: seq<int>,
                  t: Table, dohash: Option<Item -> int>)
    requires Sound(e, link, firstHash, m, order, spare, t, dohash, NULL)
    ensures |order| + |spare| == |e| && (dohash.Some? ==> |order| + |t.freeLinks| == |link| == |e|)
  {
    if dohash.Some? {
      NullNotIn(e, m, order);
      CountNodes(order, |e|);
      AllOf(t.indexed, order);
    }
  }
}
