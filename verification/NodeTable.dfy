/** The node table of the path library: nodes found by id and by name, created by lookups and deleted when
  * they are forgotten. */
module NodeTable {
  import opened Bytes
  import opened Seqs
  import opened Links
  import opened HashChains
  import opened NodeTree
  import opened Ancestry

  function Slot(h: int, size: nat): (b: nat)
    requires size > 0
    ensures b < size
  {
    h % size
  }

  /** The chain every node belongs to in the table of ids. */
  ghost function IdPlaces(n: Nodes, size: nat): map<int, nat>
    requires size > 0
  {
    map x | x in n :: Slot(n[x].nodeid, size)
  }

  /** The chain every node with a parent belongs to in the table of names. */
  ghost function NamePlaces(n: Nodes, hash: (int, string) -> int, size: nat): map<int, nat>
    requires size > 0
  {
    map x | x in n && n[x].parent in n && n[x].name.Some? :: Slot(hash(n[n[x].parent].nodeid, n[x].name.value), size)
  }

  lemma UnrefPlaces(n: Nodes, p: int, size: nat)
    requires size > 0 && p in n
    ensures IdPlaces(Unref(n, p), size) == if n[p].refctr == 1 then IdPlaces(n, size) - {p} else IdPlaces(n, size)
  {
  }

  lemma ClearedPlaces(n: Nodes, x: int, size: nat)
    requires size > 0 && x in n
    ensures IdPlaces(Cleared(n, x), size) == IdPlaces(n, size)
  {
  }

  /** Two nodes maps with the same names below the same ids, but for node x, which has no name in the second. */
  ghost predicate SameNames(n: Nodes, n': Nodes, x: int) {
    && (forall y :: y in n' && y != x ==> y in n && n'[y].name == n[y].name && n'[y].parent == n[y].parent)
    && (forall y :: y in n && y in n' ==> n'[y].nodeid == n[y].nodeid)
    && (forall y :: y in n && n[y].name.Some? && n[y].parent in n && y != x ==> y in n' && n[y].parent in n')
    && (forall y :: y in n' && n'[y].parent in n' && y != x ==> n'[y].parent in n)
    && (x in n' ==> n'[x].name.None?)
  }

  lemma SamePlace(n: Nodes, n': Nodes, x: int, hash: (int, string) -> int, size: nat, y: int)
    requires size > 0 && SameNames(n, n', x)
    ensures y in NamePlaces(n', hash, size) <==> y in NamePlaces(n, hash, size) && y != x
    ensures y in NamePlaces(n', hash, size) ==> NamePlaces(n', hash, size)[y] == NamePlaces(n, hash, size)[y]
  {
    hide Slot;
    if y in n' && y != x && n'[y].parent in n' {
      assert n[y].parent == n'[y].parent && n[y].parent in n;
      assert n'[n'[y].parent].nodeid == n[n[y].parent].nodeid;
    }
  }

  lemma SamePlaces(n: Nodes, n': Nodes, x: int, hash: (int, string) -> int, size: nat)
    requires size > 0 && SameNames(n, n', x)
    ensures NamePlaces(n', hash, size) == NamePlaces(n, hash, size) - {x}
  {
    hide SameNames, NamePlaces;
    forall y
      ensures y in NamePlaces(n', hash, size) <==> y in NamePlaces(n, hash, size) && y != x
      ensures y in NamePlaces(n', hash, size) ==> NamePlaces(n', hash, size)[y] == NamePlaces(n, hash, size)[y]
    {
      SamePlace(n, n', x, hash, size, y);
    }
  }

  lemma UnrefNames(n: Nodes, x: int, p: int)
    requires x in n && p in n && x != p
    requires n[p].refctr == 1 ==> n[p].name.None? && forall y :: y in n && n[y].parent == p ==> y == x
    ensures p in Cleared(n, x) && SameNames(n, Unref(Cleared(n, x), p), x)
  {
  }

  lemma UnnamedPlaces(n: Nodes, root: int, extra: multiset<int>, forgotten: int, x: int, hash: (int, string) -> int,
                      size: nat)
    requires size > 0 && Tree(n, root, extra, forgotten) && x in n && x != root && (forgotten == NULL || forgotten == x)
    ensures n[x].parent != NULL ==> n[x].parent in n
    ensures NamePlaces(Unnamed(n, x), hash, size) == NamePlaces(n, hash, size) - {x}
    ensures n[x].parent != NULL ==> x in NamePlaces(n, hash, size)
    ensures n[x].parent == NULL ==> x !in NamePlaces(n, hash, size)
  {
    PlacedAt(n, root, extra, forgotten, x);
    assert NULL !in n by {
      assert forall y :: y in n ==> Placed(n, root, y, forgotten);
    }
    if n[x].parent != NULL {
      var p := n[x].parent;
      assert n[p].refctr == 1 ==> forall y :: y in n && n[y].parent == p ==> y in Children(n, p);
      hide Tree, NamePlaces;
      UnrefNames(n, x, p);
      SamePlaces(n, Unref(Cleared(n, x), p), x, hash, size);
      InNamePlaces(n, x, hash, size);
    }
  }

  lemma InNamePlaces(n: Nodes, x: int, hash: (int, string) -> int, size: nat)
    requires size > 0 && x in n && n[x].parent in n && n[x].name.Some?
    ensures x in NamePlaces(n, hash, size)
    ensures NamePlaces(n, hash, size)[x] == Slot(hash(n[n[x].parent].nodeid, n[x].name.value), size)
  {
  }

  lemma NamedPlaces(n: Nodes, x: int, p: int, name: string, hash: (int, string) -> int, size: nat)
    requires size > 0 && x in n && p in n
    ensures NamePlaces(Named(n, x, p, name), hash, size) == NamePlaces(n, hash,
              size)[x := Slot(hash(n[p].nodeid, name), size)]
    ensures IdPlaces(Named(n, x, p, name), size) == IdPlaces(n, size)
  {
    hide Slot;
  }

  /** Addresses, links and tables of the two indexes; `hidden` is a node not yet in the table of ids. */
  ghost predicate Indexed(n: Nodes, idNext: map<int, int>, idTable: seq<int>, idChains: seq<seq<int>>, hidden: int) {
    |idTable| > 0 && Index(idNext, idTable, idChains, IdPlaces(n, |idTable|) - {hidden})
  }

  ghost predicate NamesIndexed(n: Nodes, nameNext: map<int, int>, nameTable: seq<int>, nameChains: seq<seq<int>>,
                               hash: (int, string) -> int) {
    |nameTable| > 0 && Index(nameNext, nameTable, nameChains, NamePlaces(n, hash, |nameTable|))
  }

  /** Has node x this id? */
  predicate HasId(n: Nodes, x: int, id: int) {
    x in n && n[x].nodeid == id
  }

  /** Is node x called this in the directory with this id? */
  predicate HasName(n: Nodes, x: int, parent: int, name: string) {
    x in n && n[x].parent in n && n[n[x].parent].nodeid == parent && n[x].name == Some(name)
  }

  lemma IdChain(n: Nodes, idNext: map<int, int>, idTable: seq<int>, idChains: seq<seq<int>>, hidden: int, id: int)
    requires Indexed(n, idNext, idTable, idChains, hidden)
    ensures var b := Slot(id, |idTable|);
            && b < |idChains| && Chain(idNext, idTable[b], idChains[b], IdPlaces(n, |idTable|) - {hidden}, b)
            && (forall x :: x in idChains[b] ==> x in n && x != hidden && x != NULL)
            && (forall x :: x != hidden && HasId(n, x, id) ==> x in idChains[b])
  {
    assert ChainAt(idNext, idTable, idChains, IdPlaces(n, |idTable|) - {hidden}, Slot(id, |idTable|));
    hide Slot;
  }

  lemma NameChain(n: Nodes, nameNext: map<int, int>, nameTable: seq<int>, nameChains: seq<seq<int>>,
                  hash: (int, string) -> int, parent: int, name: string)
    requires NamesIndexed(n, nameNext, nameTable, nameChains, hash)
    ensures var b := Slot(hash(parent, name), |nameTable|);
            && b < |nameChains| && Chain(nameNext, nameTable[b], nameChains[b], NamePlaces(n, hash, |nameTable|), b)
            && (forall x :: x in nameChains[b] ==> x in n && n[x].parent in n && n[x].name.Some? && x != NULL)
            && (forall x :: HasName(n, x, parent, name) ==> x in nameChains[b])
  {
    assert ChainAt(nameNext, nameTable, nameChains, NamePlaces(n, hash, |nameTable|),
                   Slot(hash(parent, name), |nameTable|));
    hide Slot;
  }

  lemma ChainLinks(next: map<int, int>, first: int, chain: seq<int>, belongs: map<int, nat>, b: nat)
    requires Chain(next, first, chain, belongs, b)
    ensures first == if chain == [] then NULL else chain[0]
    ensures forall i :: 0 <= i < |chain| ==> chain[i] in next && next[chain[i]] == if i + 1 < |chain|
              then chain[i + 1] else NULL
  {
  }

  lemma IdChainOf(n: Nodes, idNext: map<int, int>, idTable: seq<int>, idChains: seq<seq<int>>, x: int)
    requires Indexed(n, idNext, idTable, idChains, NULL) && x in n && x != NULL
    ensures var b := Slot(n[x].nodeid, |idTable|);
            && b < |idTable| == |idChains| && x in idChains[b]
            && Chain(idNext, idTable[b], idChains[b], IdPlaces(n, |idTable|) - {NULL}, b)
  {
    IdChain(n, idNext, idTable, idChains, NULL, n[x].nodeid);
    assert HasId(n, x, n[x].nodeid);
  }

  lemma IdCut(n: Nodes, idNext: map<int, int>, idTable: seq<int>, idChains: seq<seq<int>>, b: nat, k: nat)
    requires Indexed(n, idNext, idTable, idChains, NULL) && b < |idTable| == |idChains| && k < |idChains[b]|
    ensures Indexed(n - {idChains[b][k]}, CutNext(idNext, idChains[b], k), CutTable(idTable, idChains[b], b, k),
                    idChains[b := Without(idChains[b], k)], NULL)
    ensures |CutTable(idTable, idChains[b], b, k)| == |idTable|
    ensures CutNext(idNext, idChains[b], k) == if k == 0 then idNext
            else idNext[idChains[b][k - 1] := After(idChains[b], k)]
    ensures CutTable(idTable, idChains[b], b, k) == if k == 0 then idTable[b := After(idChains[b], 0)] else idTable
    ensures After(idChains[b], k) == if k + 1 < |idChains[b]| then idChains[b][k + 1] else NULL
  {
    var x, size := idChains[b][k], |idTable|;
    Cut(idNext, idTable, idChains, IdPlaces(n, size) - {NULL}, b, k);
    assert IdPlaces(n, size) - {NULL} - {x} == IdPlaces(n - {x}, size) - {NULL};
  }

  lemma IdPush(n: Nodes, idNext: map<int, int>, idTable: seq<int>, idChains: seq<seq<int>>, x: int)
    requires Indexed(n, idNext, idTable, idChains, x) && x in n && x != NULL && NULL !in n
    ensures var b := Slot(n[x].nodeid, |idTable|);
            && b < |idTable| == |idChains|
            && Indexed(n, idNext[x := idTable[b]], idTable[b := x], idChains[b := [x] + idChains[b]], NULL)
  {
    var b, size := Slot(n[x].nodeid, |idTable|), |idTable|;
    Pushed(idNext, idTable, idChains, IdPlaces(n, size) - {x}, x, b);
    assert (IdPlaces(n, size) - {x})[x := b] == IdPlaces(n, size) - {NULL};
  }

  lemma NameChainOf(n: Nodes, nameNext: map<int, int>, nameTable: seq<int>, nameChains: seq<seq<int>>,
                    hash: (int, string) -> int, x: int)
    requires NamesIndexed(n, nameNext, nameTable, nameChains, hash) && x in n && n[x].parent in n && n[x].name.Some?
    ensures var b := Slot(hash(n[n[x].parent].nodeid, n[x].name.value), |nameTable|);
            && b < |nameTable| == |nameChains| && x in nameChains[b] && x != NULL
            && Chain(nameNext, nameTable[b], nameChains[b], NamePlaces(n, hash, |nameTable|), b)
  {
    NameChain(n, nameNext, nameTable, nameChains, hash, n[n[x].parent].nodeid, n[x].name.value);
    assert HasName(n, x, n[n[x].parent].nodeid, n[x].name.value);
  }

  lemma NameCut(nameNext: map<int, int>, nameTable: seq<int>, nameChains: seq<seq<int>>, places: map<int, nat>,
                b: nat, k: nat)
    requires Index(nameNext, nameTable, nameChains, places) && b < |nameTable| == |nameChains| && k < |nameChains[b]|
    ensures var x, cut := nameChains[b][k], CutNext(nameNext, nameChains[b], k);
            Index(cut[x := NULL], CutTable(nameTable, nameChains[b], b, k),
                  nameChains[b := Without(nameChains[b], k)], places - {x})
    ensures |CutTable(nameTable, nameChains[b], b, k)| == |nameTable|
    ensures CutNext(nameNext, nameChains[b], k) == if k == 0 then nameNext
            else nameNext[nameChains[b][k - 1] := After(nameChains[b], k)]
    ensures CutTable(nameTable, nameChains[b], b, k) == if k == 0 then nameTable[b := After(nameChains[b], 0)]
            else nameTable
    ensures After(nameChains[b], k) == if k + 1 < |nameChains[b]| then nameChains[b][k + 1] else NULL
  {
    var x := nameChains[b][k];
    Cut(nameNext, nameTable, nameChains, places, b, k);
    Unimportant(CutNext(nameNext, nameChains[b], k), CutTable(nameTable, nameChains[b], b, k),
                nameChains[b := Without(nameChains[b], k)], places - {x}, x, NULL);
  }

  lemma NoNull(n: Nodes, root: int, extra: multiset<int>, forgotten: int)
    requires Tree(n, root, extra, forgotten)
    ensures NULL !in n && root in n && n[root].nodeid == ROOT_ID && n[root].nlookup > 0
    ensures forall x :: x in n ==> n[x].nodeid >= 0 && n[x].nlookup >= 0
  {
    assert forall y :: y in n ==> Placed(n, root, y, forgotten);
  }

  lemma NamePush(n: Nodes, root: int, extra: multiset<int>, forgotten: int, nameNext: map<int, int>,
                 nameTable: seq<int>, nameChains: seq<seq<int>>, hash: (int, string) -> int, x: int, p: int,
                 name: string)
    requires NamesIndexed(n, nameNext, nameTable, nameChains, hash) && Tree(n, root, extra, forgotten)
    requires x in n && p in n && n[x].parent == NULL
    ensures var b := Slot(hash(n[p].nodeid, name), |nameTable|);
            && b < |nameTable| == |nameChains|
            && NamesIndexed(Named(n, x, p, name), nameNext[x := nameTable[b]], nameTable[b := x],
                            nameChains[b := [x] + nameChains[b]], hash)
  {
    NoNull(n, root, extra, forgotten);
    var b, size := Slot(hash(n[p].nodeid, name), |nameTable|), |nameTable|;
    NamedPlaces(n, x, p, name, hash, size);
    assert x !in NamePlaces(n, hash, size);
    Pushed(nameNext, nameTable, nameChains, NamePlaces(n, hash, size), x, b);
  }

  lemma NamedIndexed(n: Nodes, idNext: map<int, int>, idTable: seq<int>, idChains: seq<seq<int>>, hidden: int,
                     hash: (int, string) -> int, x: int, p: int, name: string)
    requires Indexed(n, idNext, idTable, idChains, hidden) && x in n && p in n
    ensures Indexed(Named(n, x, p, name), idNext, idTable, idChains, hidden)
  {
    NamedPlaces(n, x, p, name, hash, |idTable|);
  }

  /** The order in which (generation, id) pairs are handed out. */
  predicate Earlier(g: int, i: int, g': int, i': int) {
    g < g' || (g == g' && i < i')
  }

  /** The pairs are handed out in strictly increasing order, up to the present one: no pair is used twice. */
  ghost predicate Ordered(handed: seq<(int, int)>, generation: int, ctr: int) {
    && (forall i, j :: 0 <= i < j < |handed| ==> Earlier(handed[i].0, handed[i].1, handed[j].0, handed[j].1))
    && (forall i :: 0 <= i < |handed| ==>
        handed[i] == (generation, ctr) || Earlier(handed[i].0, handed[i].1, generation, ctr))
  }

  lemma NoneHanded(generation: int, ctr: int)
    ensures Ordered([], generation, ctr)
  {
  }

  lemma OrderedMore(handed: seq<(int, int)>, generation: int, ctr: int, generation': int, ctr': int)
    requires Ordered(handed, generation, ctr) && Earlier(generation, ctr, generation', ctr')
    ensures Ordered(handed + [(generation', ctr')], generation', ctr')
  {
  }

  /** How far it is to the next occurrence of a counter value. */
  function Distance(ctr: int, target: int): int {
    if ctr == target then 0 else if ctr < target then target - ctr else target - ctr + 0x1_0000_0000
  }

  ghost predicate Unused(n: Nodes, id: int) {
    0 < id < UNKNOWN_ID && forall x :: !HasId(n, x, id)
  }

  lemma UnusedIs(n: Nodes, id: int)
    requires Unused(n, id)
    ensures 0 < id < UNKNOWN_ID && forall x :: x in n ==> n[x].nodeid != id
  {
    assert forall x :: x in n ==> !HasId(n, x, id);
  }

  lemma NewSameNames(n: Nodes, x: int, q: Node)
    requires x !in n && q.name.None? && forall y :: y in n ==> n[y].parent != x
    ensures SameNames(n, n[x := q], x)
  {
  }

  lemma NewIdPlaces(n: Nodes, x: int, q: Node, size: nat)
    requires size > 0 && x !in n && NULL !in n
    ensures IdPlaces(n[x := q], size) - {x} == IdPlaces(n, size) - {NULL}
  {
    hide Slot;
  }

  lemma NotPlaced(n: Nodes, x: int, hash: (int, string) -> int, size: nat)
    requires size > 0 && x !in n
    ensures NamePlaces(n, hash, size) - {x} == NamePlaces(n, hash, size)
  {
  }

  lemma NewIndexed(n: Nodes, idNext: map<int, int>, idTable: seq<int>, idChains: seq<seq<int>>, nameNext: map<int, int>,
                   nameTable: seq<int>, nameChains: seq<seq<int>>, hash: (int, string) -> int, x: int, q: Node)
    requires Indexed(n, idNext, idTable, idChains, NULL) && NamesIndexed(n, nameNext, nameTable, nameChains, hash)
    requires x !in n && NULL !in n && q.name.None? && forall y :: y in n ==> n[y].parent != x
    ensures Indexed(n[x := q], idNext, idTable, idChains, x)
            && NamesIndexed(n[x := q], nameNext, nameTable, nameChains, hash)
  {
    NewSameNames(n, x, q);
    hide SameNames, Index, NamePlaces, IdPlaces;
    var n' := n[x := q];
    NewIdPlaces(n, x, q, |idTable|);
    assert IdPlaces(n', |idTable|) - {x} == IdPlaces(n, |idTable|) - {NULL};
    SamePlaces(n, n', x, hash, |nameTable|);
    NotPlaced(n, x, hash, |nameTable|);
    assert NamePlaces(n', hash, |nameTable|) == NamePlaces(n, hash, |nameTable|);
  }

  /** Two maps of the same nodes with the same ids and names. */
  ghost predicate Alike(n: Nodes, n': Nodes) {
    && (forall y :: y in n <==> y in n')
    && (forall y :: y in n ==> n'[y].nodeid == n[y].nodeid && n'[y].name == n[y].name && n'[y].parent == n[y].parent)
  }

  lemma AlikeIds(n: Nodes, n': Nodes, size: nat)
    requires size > 0 && Alike(n, n')
    ensures IdPlaces(n', size) == IdPlaces(n, size)
  {
    hide Slot;
    var places, places' := IdPlaces(n, size), IdPlaces(n', size);
    forall y
      ensures y in places' <==> y in places
      ensures y in places' ==> places'[y] == places[y]
    {
      assert y in n <==> y in n';
    }
  }

  lemma AlikeNames(n: Nodes, n': Nodes, hash: (int, string) -> int, size: nat)
    requires size > 0 && Alike(n, n')
    ensures NamePlaces(n', hash, size) == NamePlaces(n, hash, size)
  {
    hide Slot;
    var places, places' := NamePlaces(n, hash, size), NamePlaces(n', hash, size);
    forall y
      ensures y in places' <==> y in places
      ensures y in places' ==> places'[y] == places[y]
    {
      assert y in n <==> y in n';
      if y in n {
        assert n[y].parent in n <==> n[y].parent in n';
      }
    }
  }

  lemma AlikeIndexed(n: Nodes, n': Nodes, idNext: map<int, int>, idTable: seq<int>, idChains: seq<seq<int>>,
                     nameNext: map<int, int>, nameTable: seq<int>, nameChains: seq<seq<int>>,
                     hash: (int, string) -> int)
    requires Indexed(n, idNext, idTable, idChains, NULL) && NamesIndexed(n, nameNext, nameTable, nameChains, hash)
             && Alike(n, n')
    ensures Indexed(n', idNext, idTable, idChains, NULL) && NamesIndexed(n', nameNext, nameTable, nameChains, hash)
  {
    hide Alike, Index, NamePlaces, IdPlaces;
    AlikeIds(n, n', |idTable|);
    AlikeNames(n, n', hash, |nameTable|);
  }

  lemma ParentsKnown(n: Nodes, root: int, extra: multiset<int>, forgotten: int)
    requires Tree(n, root, extra, forgotten)
    ensures forall y :: y in n ==> n[y].parent == NULL || n[y].parent in n
  {
    assert forall y :: y in n ==> Placed(n, root, y, forgotten);
  }

  lemma NamedKeys(n: Nodes, x: int, p: int, name: string)
    requires x in n && p in n
    ensures Named(n, x, p, name).Keys == n.Keys && x in Named(n, x, p, name)
  {
  }

  lemma NewNames(n: Nodes, p: int, name: string, x: int, q: Node, parent: int)
    requires NoSuchName(n, p, name) && HasId(n, p, parent) && x !in n && q.parent == NULL && p != NULL
    ensures NoSuchName(n[x := q], p, name) && HasId(n[x := q], p, parent) && p != x
  {
  }

  const EBUSY: int := 16

  /** The nodes of a renaming all exist until they are needed. */
  ghost predicate Renaming(n: Nodes, x: int, y: int, p: int) {
    && x in n && (y != NULL ==> y in n && (n[y].parent != NULL ==> n[y].parent in n))
    && var m := if y == NULL then n else Unnamed(n, y);
    && x in m && (m[x].parent != NULL ==> m[x].parent in m) && x in Unnamed(m, x) && p in Unnamed(m, x)
  }

  class Fuse {
    const root: int
    const hash: (int, string) -> int
    var node: Nodes
    var idNext: map<int, int>
    var nameNext: map<int, int>
    var idTable: seq<int>
    var nameTable: seq<int>
    var ctr: int
    var generation: int
    ghost var idChains: seq<seq<int>>
    ghost var nameChains: seq<seq<int>>
    ghost var handed: seq<(int, int)>     // the (generation, id) pairs given to nodes so far

    /** The node with this id, or NULL. */
    method GetNodeNocheck(id: int, ghost hidden: int) returns (x: int)
      requires Indexed(node, idNext, idTable, idChains, hidden)
      ensures x == NULL ==> forall y :: y != hidden ==> !HasId(node, y, id)
      ensures x != NULL ==> HasId(node, x, id) && x != hidden
    {
      IdChain(node, idNext, idTable, idChains, hidden, id);
      hide Indexed, Index, IdPlaces, Slot;
      var b := Slot(id, |idTable|);
      ghost var chain, k := idChains[b], 0;
      x := idTable[b];
      while x != NULL && node[x].nodeid != id
        invariant 0 <= k <= |chain| && x == (if k < |chain| then chain[k] else NULL)
        invariant forall i :: 0 <= i < k ==> !HasId(node, chain[i], id)
        decreases |chain| - k
      {
        x := idNext[x];
        k := k + 1;
      }
    }

    /** The node with this name in the directory with this id, or NULL. */
    method LookupNode(parent: int, name: string) returns (x: int)
      requires NamesIndexed(node, nameNext, nameTable, nameChains, hash)
      ensures x == NULL ==> forall y :: !HasName(node, y, parent, name)
      ensures x != NULL ==> HasName(node, x, parent, name)
    {
      NameChain(node, nameNext, nameTable, nameChains, hash, parent, name);
      hide NamesIndexed, Index, NamePlaces, Slot;
      var b := Slot(hash(parent, name), |nameTable|);
      ghost var chain, k := nameChains[b], 0;
      x := nameTable[b];
      while x != NULL && !(node[node[x].parent].nodeid == parent && node[x].name == Some(name))
        invariant 0 <= k <= |chain| && x == (if k < |chain| then chain[k] else NULL)
        invariant forall i :: 0 <= i < k ==> !HasName(node, chain[i], parent, name)
        decreases |chain| - k
      {
        x := nameNext[x];
        k := k + 1;
      }
    }

    /** Take a node out of the table of ids. */
    method UnhashId(x: int)
      requires Indexed(node, idNext, idTable, idChains, NULL) && x in node && x != NULL
      modifies `idNext, `idTable, `idChains
      ensures Indexed(node - {x}, idNext, idTable, idChains, NULL) && |idTable| == |old(idTable)|
    {
      hide *;
      ghost var n, size := node, |idTable|;
      IdChainOf(node, idNext, idTable, idChains, x);
      var b := Slot(node[x].nodeid, |idTable|);
      ghost var chain, k := idChains[b], 0;
      ChainLinks(idNext, idTable[b], chain, IdPlaces(n, size) - {NULL}, b);
      var previous, y := NULL, idTable[b];
      while y != x
        invariant 0 <= k < |chain| && y == chain[k] && previous == (if k > 0 then chain[k - 1] else NULL)
        invariant forall i :: 0 <= i < k ==> chain[i] != x
        decreases |chain| - k
      {
        previous, y := y, idNext[y];
        k := k + 1;
      }
      IdCut(n, idNext, idTable, idChains, b, k);
      if previous == NULL {
        idTable := idTable[b := idNext[x]];
      } else {
        idNext := idNext[previous := idNext[x]];
      }
      idChains := idChains[b := Without(chain, k)];
    }

    /** Put a node into the table of ids. */
    method HashId(x: int)
      requires Indexed(node, idNext, idTable, idChains, x) && x in node && x != NULL && NULL !in node
      modifies `idNext, `idTable, `idChains
      ensures Indexed(node, idNext, idTable, idChains, NULL) && |idTable| == |old(idTable)|
    {
      IdPush(node, idNext, idTable, idChains, x);
      hide *;
      var b := Slot(node[x].nodeid, |idTable|);
      idNext := idNext[x := idTable[b]];
      idTable := idTable[b := x];
      idChains := idChains[b := [x] + idChains[b]];
    }

    /** Delete a node, which must not have a name any more. */
    method DeleteNode(x: int)
      requires Indexed(node, idNext, idTable, idChains, NULL) && x in node && x != NULL && node[x].name.None?
      modifies `node, `idNext, `idTable, `idChains
      ensures node == old(node) - {x}
      ensures Indexed(node, idNext, idTable, idChains, NULL) && |idTable| == |old(idTable)|
    {
      UnhashId(x);
      node := node - {x};
    }

    /** Drop a reference. */
    method UnrefNode(x: int)
      requires Indexed(node, idNext, idTable, idChains, NULL) && x in node && x != NULL && node[x].refctr > 0
      requires node[x].refctr == 1 ==> node[x].name.None?
      modifies `node, `idNext, `idTable, `idChains
      ensures node == Unref(old(node), x)
      ensures Indexed(node, idNext, idTable, idChains, NULL) && |idTable| == |old(idTable)|
    {
      hide Index;
      UnrefPlaces(node, x, |idTable|);
      if node[x].refctr == 1 {
        DeleteDecremented(node, x, |idTable|);
      }
      node := node[x := node[x].(refctr := node[x].refctr - 1)];
      if node[x].refctr == 0 {
        DeleteNode(x);
      }
    }

    lemma DeleteDecremented(n: Nodes, x: int, size: nat)
      requires x in n && size > 0
      ensures n[x := n[x].(refctr := 0)] - {x} == n - {x}
              && IdPlaces(n[x := n[x].(refctr := 0)], size) == IdPlaces(n, size)
    {
    }

    /** Take a named node out of the table of names. */
    method UnlinkName(x: int)
      requires NamesIndexed(node, nameNext, nameTable, nameChains, hash) && x in node && node[x].parent in node
               && node[x].name.Some?
      modifies `nameNext, `nameTable, `nameChains
      ensures |nameTable| == |old(nameTable)| > 0
      ensures Index(nameNext, nameTable, nameChains, NamePlaces(node, hash, |nameTable|) - {x})
    {
      NameChainOf(node, nameNext, nameTable, nameChains, hash, x);
      ghost var places := NamePlaces(node, hash, |nameTable|);
      hide *;
      var b := Slot(hash(node[node[x].parent].nodeid, node[x].name.value), |nameTable|);
      ghost var chain, k := nameChains[b], 0;
      ChainLinks(nameNext, nameTable[b], chain, places, b);
      var previous, y := NULL, nameTable[b];
      while y != x
        invariant 0 <= k < |chain| && y == chain[k] && previous == (if k > 0 then chain[k - 1] else NULL)
        invariant forall i :: 0 <= i < k ==> chain[i] != x
        decreases |chain| - k
      {
        previous, y := y, nameNext[y];
        k := k + 1;
      }
      NameCut(nameNext, nameTable, nameChains, places, b, k);
      if previous == NULL {
        nameTable := nameTable[b := nameNext[x]];
      } else {
        nameNext := nameNext[previous := nameNext[x]];
      }
      nameNext := nameNext[x := NULL];
      nameChains := nameChains[b := Without(chain, k)];
    }

    /** Every node is in the chain of its id once, every named one but the root in the chain of its name once,
      * and the references are counted correctly, those in `extra` being about to be dropped. */
    ghost predicate ValidBut(extra: multiset<int>, forgotten: int)
      reads this
    {
      && Tree(node, root, extra, forgotten) && Indexed(node, idNext, idTable, idChains, NULL)
      && NamesIndexed(node, nameNext, nameTable, nameChains, hash)
    }

    ghost predicate Valid()
      reads this
    {
      ValidBut(multiset{}, NULL) && 0 <= ctr < 0x1_0000_0000 && Ordered(handed, generation, ctr)
    }

    /** Take a node's name away. */
    method UnhashName(x: int, ghost extra: multiset<int>, ghost forgotten: int)
      requires ValidBut(extra, forgotten) && x in node && x != root && (forgotten == NULL || forgotten == x)
      modifies `node, `idNext, `idTable, `idChains, `nameNext, `nameTable, `nameChains
      ensures x in old(node) && (old(node)[x].parent != NULL ==> old(node)[x].parent in old(node))
      ensures node == Unnamed(old(node), x) && ValidBut(extra, forgotten)
    {
      ghost var n, size := node, |nameTable|;
      PlacedAt(n, root, extra, forgotten, x);
      NoNull(n, root, extra, forgotten);
      UnnamedTree(n, root, extra, forgotten, x);
      UnnamedPlaces(n, root, extra, forgotten, x, hash, size);
      hide Tree, Index, NamePlaces, Indexed, Unref, Cleared;
      if node[x].name.Some? {
        UnlinkName(x);
        var parent := node[x].parent;
        Commute(n, x, parent);
        UnrefNode(parent);
        ClearedIndexed(node, idNext, idTable, idChains, x);
        node := Cleared(node, x);
      }
    }

    lemma ClearedIndexed(n: Nodes, idNext: map<int, int>, idTable: seq<int>, idChains: seq<seq<int>>, x: int)
      requires Indexed(n, idNext, idTable, idChains, NULL) && x in n
      ensures Indexed(Cleared(n, x), idNext, idTable, idChains, NULL)
    {
      ClearedPlaces(n, x, |idTable|);
    }

    /** Give a node without a name a name in a directory. */
    method HashName(x: int, parentid: int, name: string, ghost p: int, ghost hidden: int, ghost extra: multiset<int>,
                    ghost forgotten: int)
      requires Tree(node, root, extra, forgotten) && Indexed(node, idNext, idTable, idChains, hidden)
      requires NamesIndexed(node, nameNext, nameTable, nameChains, hash)
      requires HasId(node, p, parentid) && p != hidden && x in node && x != root && x != p && node[x].parent == NULL
      requires (node[x].nlookup > 0 || x == forgotten) && NoSuchName(node, p, name)
      modifies `node, `nameNext, `nameTable, `nameChains
      ensures x in old(node) && p in old(node) && node == Named(old(node), x, p, name)
      ensures Tree(node, root, extra, forgotten) && Indexed(node, idNext, idTable, idChains, hidden)
      ensures NamesIndexed(node, nameNext, nameTable, nameChains, hash)
    {
      hide *;
      ghost var n := node;
      HasIdIs(n, p, parentid);
      NoNull(n, root, extra, forgotten);
      NamePush(n, root, extra, forgotten, nameNext, nameTable, nameChains, hash, x, p, name);
      NamedTree(n, root, extra, forgotten, x, p, name);
      NamedIndexed(n, idNext, idTable, idChains, hidden, hash, x, p, name);
      OneWithId(n, root, extra, forgotten, parentid);
      var b := Slot(hash(parentid, name), |nameTable|);
      var parent := GetNodeNocheck(parentid, hidden);
      node := node[parent := node[parent].(refctr := node[parent].refctr + 1)];
      node := node[x := node[x].(name := Some(name), parent := parent)];
      nameNext := nameNext[x := nameTable[b]];
      nameTable := nameTable[b := x];
      nameChains := nameChains[b := [x] + nameChains[b]];
      NamedIs(n, x, p, name);
    }

    lemma HasIdIs(n: Nodes, x: int, id: int)
      ensures HasId(n, x, id) <==> x in n && n[x].nodeid == id
    {
    }

    lemma NamedIs(n: Nodes, x: int, p: int, name: string)
      requires x in n && p in n && x != p
      ensures Named(n, x, p,
                    name) == n[p := n[p].(refctr := n[p].refctr + 1)][x := n[x].(name := Some(name), parent := p)]
    {
    }

    lemma OneWithId(n: Nodes, root: int, extra: multiset<int>, forgotten: int, id: int)
      requires Tree(n, root, extra, forgotten)
      ensures forall x, y :: HasId(n, x, id) && HasId(n, y, id) ==> x == y
    {
    }

    /** Try the next counter value; a new generation starts when the counter wraps. */
    method TryNext() returns (x: int)
      requires Indexed(node, idNext, idTable, idChains, NULL) && 0 <= ctr < 0x1_0000_0000
      modifies `ctr, `generation
      ensures 0 <= ctr < 0x1_0000_0000 && ctr == (if old(ctr) == 0xffffffff then 0 else old(ctr) + 1)
      ensures generation == old(generation) + if ctr == 0 then 1 else 0
      ensures x == NULL ==> forall y :: y != NULL ==> !HasId(node, y, ctr)
      ensures x != NULL ==> HasId(node, x, ctr)
    {
      ctr := (ctr + 1) % 0x1_0000_0000;
      if ctr == 0 {
        generation := generation + 1;
      }
      x := GetNodeNocheck(ctr, NULL);
    }

    /** The next id in turn that no node has. */
    method NextId(ghost spare: int) returns (id: int)
      requires Indexed(node, idNext, idTable, idChains, NULL) && NULL !in node
      requires 0 <= ctr < 0x1_0000_0000 && Unused(node, spare)
      modifies `ctr, `generation
      ensures id == ctr && Unused(node, id) && Earlier(old(generation), old(ctr), generation, ctr)
              && 0 <= ctr < 0x1_0000_0000
    {
      hide Indexed;
      var x := TryNext();
      while ctr == 0 || ctr == UNKNOWN_ID || x != NULL
        invariant 0 <= ctr < 0x1_0000_0000 && Earlier(old(generation), old(ctr), generation, ctr)
        invariant x == NULL ==> forall y :: !HasId(node, y, ctr)
        invariant x != NULL ==> HasId(node, x, ctr)
        decreases Distance(ctr, spare)
      {
        x := TryNext();
      }
      id := ctr;
    }

    /** A new node with the next id, at a free address, with a name in a directory. */
    method NewNode(parent: int, name: string, address: int, ghost p: int, ghost spare: int)
      requires Valid() && HasId(node, p, parent) && NoSuchName(node, p, name)
      requires address !in node && address != NULL && Unused(node, spare)
      modifies this
      ensures Earlier(old(generation), old(ctr), generation, ctr) && Unused(old(node), ctr)
      ensures handed == old(handed) + [(generation, ctr)] && Ordered(handed, generation, ctr)
              && 0 <= ctr < 0x1_0000_0000
      ensures p in old(node) && address != p
      ensures node == Named(old(node)[address := Node(ctr, generation, 1, NULL, None, 0)], address, p, name)
      ensures ValidBut(multiset{address}, address)
    {
      hide *;
      ghost var n := node;
      ValidIs(multiset{}, NULL);
      HasIdIs(n, p, parent);
      NoNull(n, root, multiset{}, NULL);
      ghost var g0, c0 := generation, ctr;
      var id := NextId(spare);
      OrderedMore(handed, g0, c0, generation, ctr);
      UnusedIs(n, id);
      ParentsKnown(n, root, multiset{}, NULL);
      NewTree(n, root, address, id, generation);
      NewIndexed(n, idNext, idTable, idChains, nameNext, nameTable, nameChains, hash, address,
                 Node(id, generation, 1, NULL, None, 0));
      NewNames(n, p, name, address, Node(id, generation, 1, NULL, None, 0), parent);
      node := node[address := Node(id, generation, 1, NULL, None, 0)];
      HashName(address, parent, name, p, address, multiset{address}, address);
      NoNull(node, root, multiset{address}, address);
      NamedKeys(n[address := Node(id, generation, 1, NULL, None, 0)], address, p, name);
      HashId(address);
      handed := handed + [(generation, ctr)];
      ValidIs(multiset{address}, address);
    }

    lemma ValidIs(extra: multiset<int>, forgotten: int)
      ensures Valid() <==> ValidBut(multiset{}, NULL) && 0 <= ctr < 0x1_0000_0000 && Ordered(handed, generation, ctr)
      ensures ValidBut(extra, forgotten) <==>
                && Tree(node, root, extra, forgotten) && Indexed(node, idNext, idTable, idChains, NULL)
                && NamesIndexed(node, nameNext, nameTable, nameChains, hash)
    {
    }

    /** Find the node with a name in a directory, or create it; it has been looked up once more. */
    method FindNode(parent: int, name: string, address: int, ghost p: int, ghost spare: int) returns (x: int)
      requires Valid() && HasId(node, p, parent) && address !in node && address != NULL && Unused(node, spare)
      modifies this
      ensures Valid() && p in old(node) && address !in old(node) && address != p
      ensures HasName(old(node), x, parent, name) || (x == address && forall y :: !HasName(old(node), y, parent, name))
      ensures x in old(node) ==> node == LookedUp(old(node), x) && handed == old(handed)
      ensures x !in old(node) ==>
                && handed == old(handed) + [(generation, ctr)] && Unused(old(node), ctr)
                && node == Named(old(node)[x := Node(ctr, generation, 1, NULL, None, 1)], x, p, name)
      ensures Grounded(old(node)) ==> Grounded(node)
    {
      hide *;
      ValidIs(multiset{}, NULL);
      HasIdIs(node, p, parent);
      ghost var n := node;
      NoNull(n, root, multiset{}, NULL);
      x := LookupNode(parent, name);
      ghost var extra, forgotten := multiset{}, NULL;
      if x == NULL {
        OneWithId(n, root, multiset{}, NULL, parent);
        NoName(n, p, parent, name);
        NewNode(parent, name, address, p, spare);
        x := address;
        extra, forgotten := multiset{address}, address;
        NamedKeys(n[address := Node(ctr, generation, 1, NULL, None, 0)], address, p, name);
        NamedLookedUp(n, address, p, name, ctr, generation);
      } else {
        HasNameIs(n, x, parent, name);
        NamedIsLookedUp(n, root, x);
      }
      ValidIs(extra, forgotten);
      LookedUpTree(node, root, forgotten, x);
      LookedUpAlike(node, x);
      AlikeIndexed(node, LookedUp(node, x), idNext, idTable, idChains, nameNext, nameTable, nameChains, hash);
      node := LookedUp(node, x);
      ValidIs(multiset{}, NULL);
      if Grounded(n) {
        if x in n {
          LookedUpGrounded(n, x);
        } else {
          NewGrounded(n, root, x, Node(ctr, generation, 1, NULL, None, 1), p, name);
        }
      }
    }

    lemma NoName(n: Nodes, p: int, parent: int, name: string)
      requires HasId(n, p, parent) && forall y :: !HasName(n, y, parent, name)
      ensures NoSuchName(n, p, name)
    {
      assert forall y :: y in n && n[y].parent == p && n[y].name == Some(name) ==> HasName(n, y, parent, name);
    }

    lemma HasNameIs(n: Nodes, x: int, parent: int, name: string)
      ensures HasName(n, x, parent, name) <==>
              x in n && n[x].parent in n && n[n[x].parent].nodeid == parent && n[x].name == Some(name)
    {
    }

    lemma NamedIsLookedUp(n: Nodes, root: int, x: int)
      requires Tree(n, root, multiset{}, NULL) && x in n && n[x].parent in n
      ensures n[x].nlookup > 0
    {
      NoNull(n, root, multiset{}, NULL);
      assert Placed(n, root, x, NULL);
    }

    lemma NamedLookedUp(n: Nodes, x: int, p: int, name: string, id: int, generation: int)
      requires x !in n && p in n
      ensures var m := Named(n[x := Node(id, generation, 1, NULL, None, 0)], x, p, name);
              x in m && m[x].nlookup == 0
                && LookedUp(m, x) == Named(n[x := Node(id, generation, 1, NULL, None, 1)], x, p, name)
    {
    }

    lemma LookedUpAlike(n: Nodes, x: int)
      requires x in n
      ensures Alike(n, LookedUp(n, x))
    {
    }

    /** The kernel gives back `count` lookups of a node. */
    method ForgetNode(nodeid: int, count: int, ghost x: int)
      requires Valid()
      requires nodeid != ROOT_ID ==> HasId(node, x, nodeid) && 0 <= count <= node[x].nlookup && node[x].nlookup > 0
      modifies `node, `idNext, `idTable, `idChains, `nameNext, `nameTable, `nameChains
      ensures Valid() && (nodeid == ROOT_ID ==> node == old(node))
      ensures nodeid != ROOT_ID ==>
                && x in old(node) && old(node)[x].parent != x
                  && (old(node)[x].parent != NULL ==> old(node)[x].parent in old(node))
                && node == AfterForget(old(node), x, count)
      ensures nodeid != ROOT_ID ==> forall z :: z in old(node) && z !in node ==>
                Forgot(old(node), x, count)[z].nlookup == 0 && Children(node, z) == {}
      ensures Grounded(old(node)) ==> Grounded(node)
    {
      hide *;
      if nodeid == ROOT_ID {
        return;
      }
      ValidIs(multiset{}, NULL);
      ghost var n := node;
      HasIdIs(n, x, nodeid);
      NoNull(n, root, multiset{}, NULL);
      OneWithId(n, root, multiset{}, NULL, nodeid);
      RootIs();
      ForgetTree(n, root, x, count);
      ForgotTree(n, root, x, count);
      var y := GetNodeNocheck(nodeid, NULL);
      ForgotAlike(n, x, count);
      AlikeIndexed(n, Forgot(n, x, count), idNext, idTable, idChains, nameNext, nameTable, nameChains, hash);
      ForgotIs(n, x, count);
      node := node[y := node[y].(nlookup := node[y].nlookup - count)];
      if node[y].nlookup == 0 {
        ghost var m := node;
        ValidIs(multiset{x}, x);
        UnnamedKeeps(m, root, multiset{x}, x, x);
        UnhashName(y, multiset{x}, x);
        ValidIs(multiset{x}, x);
        CountedAt(node, root, multiset{x}, x, x);
        if node[y].refctr == 1 {
          LastReference(node, root, x);
        }
        UnrefIndexedNames(node, nameNext, nameTable, nameChains, hash, x);
        UnrefNode(y);
      }
      AfterForgetIs(n, x, count);
      ValidIs(multiset{}, NULL);
      if Grounded(n) {
        ForgetGrounded(n, root, x, count);
      }
    }

    lemma RootIs()
      ensures ROOT_ID == 1
    {
    }

    lemma ForgotIs(n: Nodes, x: int, count: int)
      requires x in n
      ensures x in Forgot(n, x, count) && Forgot(n, x, count) == n[x := n[x].(nlookup := n[x].nlookup - count)]
      ensures Forgot(n, x, count)[x].parent == n[x].parent
    {
    }

    lemma AfterForgetIs(n: Nodes, x: int, count: int)
      requires x in n && n[x].parent != x && (n[x].parent != NULL ==> n[x].parent in n)
      ensures var m := Forgot(n, x, count);
              && x in m && (m[x].parent != NULL ==> m[x].parent in m) && (m[x].nlookup == 0 ==> x in Unnamed(m, x))
              && AfterForget(n, x, count) == if m[x].nlookup == 0 then Unref(Unnamed(m, x), x) else m
    {
    }

    lemma ForgotAlike(n: Nodes, x: int, count: int)
      requires x in n
      ensures Alike(n, Forgot(n, x, count))
    {
    }

    lemma CountedAt(n: Nodes, root: int, extra: multiset<int>, forgotten: int, x: int)
      requires Tree(n, root, extra, forgotten) && x in n
      ensures n[x].refctr > 0
    {
      assert Counted(n, x, extra);
    }

    /** A node without a name is missed in no chain of names. */
    lemma UnrefIndexedNames(n: Nodes, nameNext: map<int, int>, nameTable: seq<int>, nameChains: seq<seq<int>>,
                            hash: (int, string) -> int, x: int)
      requires NamesIndexed(n, nameNext, nameTable, nameChains, hash) && x in n && n[x].name.None?
      requires n[x].refctr == 1 ==> forall y :: y in n ==> n[y].parent != x
      ensures NamesIndexed(Unref(n, x), nameNext, nameTable, nameChains, hash)
    {
      assert SameNames(n, Unref(n, x), x);
      assert x !in NamePlaces(n, hash, |nameTable|);
      hide SameNames, NamePlaces, Index, Unref;
      SamePlaces(n, Unref(n, x), x, hash, |nameTable|);
      assert NamePlaces(n, hash, |nameTable|) - {x} == NamePlaces(n, hash, |nameTable|);
    }

    lemma LastReference(n: Nodes, root: int, x: int)
      requires Tree(n, root, multiset{x}, x) && x in n && n[x].refctr == 1
      ensures forall y :: y in n ==> n[y].parent != x
    {
      assert Counted(n, x, multiset{x});
      assert forall y :: y in n && n[y].parent == x ==> y in Children(n, x);
    }

    /** A name is removed from a directory. */
    method RemoveNode(dir: int, name: string)
      requires Valid()
      modifies `node, `idNext, `idTable, `idChains, `nameNext, `nameTable, `nameChains
      ensures Valid()
      ensures (forall y :: !HasName(old(node), y, dir, name)) ==> node == old(node)
      ensures forall x :: HasName(old(node), x, dir, name) ==> node == Unnamed(old(node), x)
      ensures Grounded(old(node)) ==> Grounded(node)
    {
      hide *;
      ValidIs(multiset{}, NULL);
      ghost var n := node;
      NoNull(n, root, multiset{}, NULL);
      OneWithName(n, root, dir, name);
      var x := LookupNode(dir, name);
      if x != NULL {
        HasNameIs(n, x, dir, name);
        NotRoot(n, root, x);
        ValidIs(multiset{}, NULL);
        UnhashName(x, multiset{}, NULL);
        if Grounded(n) {
          RemoveGrounded(n, root, x);
        }
      }
      ValidIs(multiset{}, NULL);
    }

    lemma OneWithName(n: Nodes, root: int, dir: int, name: string)
      requires Tree(n, root, multiset{}, NULL)
      ensures forall x, y :: HasName(n, x, dir, name) && HasName(n, y, dir, name) ==> x == y
      ensures forall x :: HasName(n, x, dir, name) ==> x in n && n[x].parent in n
    {
      NoNull(n, root, multiset{}, NULL);
    }

    lemma NotRoot(n: Nodes, root: int, x: int)
      requires Tree(n, root, multiset{}, NULL) && x in n && n[x].parent in n
      ensures x != root && n[x].nlookup > 0 && n[x].parent != NULL
    {
      NoNull(n, root, multiset{}, NULL);
      assert Placed(n, root, x, NULL);
    }

    /** Node x is renamed into directory p, where it takes the place of y (NULL for none). */
    method RenameNode(olddir: int, oldname: string, newdir: int, newname: string, hiding: bool, ghost p: int)
      returns (err: int)
      requires Valid() && HasId(node, p, newdir) && node[p].nlookup > 0 && !HasName(node, p, olddir, oldname)
      modifies `node, `idNext, `idTable, `idChains, `nameNext, `nameTable, `nameChains
      ensures Valid() && (err == 0 || err == -EBUSY)
      ensures (forall x :: !HasName(old(node), x, olddir, oldname)) ==> err == 0 && node == old(node)
      ensures forall x, y :: HasName(old(node), x, olddir, oldname) && HasName(old(node), y, newdir, newname) ==>
                if hiding then err == -EBUSY && node == old(node)
                else err == 0 && Renaming(old(node), x, y, p) && node == AfterRename(old(node), x, y, p, newname)
      ensures forall x ::
                HasName(old(node), x, olddir, oldname) && (forall y :: !HasName(old(node), y, newdir, newname)) ==>
                err == 0 && Renaming(old(node), x, NULL, p) && node == AfterRename(old(node), x, NULL, p, newname)
      ensures Grounded(old(node)) && (forall x :: HasName(old(node), x, olddir, oldname) ==> x !in Up(old(node), p)) ==>
                Grounded(node)
    {
      hide *;
      ghost var n := node;
      ValidIs(multiset{}, NULL);
      err := 0;
      var x := LookupNode(olddir, oldname);
      var y := LookupNode(newdir, newname);
      OneWithName(n, root, olddir, oldname);
      OneWithName(n, root, newdir, newname);
      if x == NULL {
        return;
      }
      if y != NULL && hiding {
        err := -EBUSY;
        return;
      }
      MayRename(n, root, x, y, p, olddir, oldname, newdir, newname);
      ValidIs(multiset{}, NULL);
      if y != NULL {
        UnhashName(y, multiset{}, NULL);
      }
      UnhashName(x, multiset{}, NULL);
      ValidIs(multiset{}, NULL);
      HashName(x, newdir, newname, p, NULL, multiset{}, NULL);
      RenamedIs(n, x, y, p, newname);
      ValidIs(multiset{}, NULL);
      if Grounded(n) {
        RenameGrounded(n, root, x, y, p, newname);
      }
    }

    /** The new name may be given once the old ones have been taken away. */
    lemma MayRename(n: Nodes, root: int, x: int, y: int, p: int, olddir: int, oldname: string, newdir: int,
                    newname: string)
      requires Tree(n, root, multiset{}, NULL) && HasName(n, x, olddir, oldname) && HasId(n, p, newdir)
      requires n[p].nlookup > 0 && !HasName(n, p, olddir, oldname)
      requires if y == NULL then forall z :: !HasName(n, z, newdir, newname) else HasName(n, y, newdir, newname)
      ensures Renaming(n, x, y, p) && x in n && x != root && (y != NULL ==> y in n && y != root)
      ensures var m := if y == NULL then n else Unnamed(n, y);
              && x in m && x in Unnamed(m, x)
              && var m1 := Unnamed(m, x);
              && HasId(m1, p, newdir) && p != NULL && x != p && m1[x].parent == NULL && m1[x].nlookup > 0
              && NoSuchName(m1, p, newname)
    {
      NoNull(n, root, multiset{}, NULL);
      NotRoot(n, root, x);
      var m := n;
      if y != NULL {
        NotRoot(n, root, y);
        UnnamedTree(n, root, multiset{}, NULL, y);
        UnnamedKeeps(n, root, multiset{}, NULL, y);
        m := Unnamed(n, y);
        assert n[y].parent == p by {
          OneWithId(n, root, multiset{}, NULL, newdir);
          assert HasId(n, n[y].parent, newdir);
        }
        NameGone(n, m, y, p, newname);
      } else {
        OneWithId(n, root, multiset{}, NULL, newdir);
        NoName(n, p, newdir, newname);
      }
      hide Tree, Unnamed;
      UnnamedTree(m, root, multiset{}, NULL, x);
      UnnamedKeeps(m, root, multiset{}, NULL, x);
      NameGone(m, Unnamed(m, x), x, p, newname);
    }

    lemma RenamedIs(n: Nodes, x: int, y: int, p: int, newname: string)
      requires Renaming(n, x, y, p)
      ensures x in n && (y != NULL ==> y in n && (n[y].parent != NULL ==> n[y].parent in n))
      ensures var m := if y == NULL then n else Unnamed(n, y);
              && x in m && (m[x].parent != NULL ==> m[x].parent in m) && x in Unnamed(m, x) && p in Unnamed(m, x)
              && AfterRename(n, x, y, p, newname) == Named(Unnamed(m, x), x, p, newname)
    {
    }

    /** A file system starts with its root only. */
    constructor (size: nat, root: int, hash: (int, string) -> int)
      requires size > 0 && root != NULL
      ensures Valid() && node.Keys == {root} && handed == [] && Grounded(node)
    {
      this.root, this.hash := root, hash;
      var top := Node(ROOT_ID, 0, 1, NULL, Some("/"), 1);
      node := map[root := top];
      idNext, nameNext := map[], map[];
      idTable, nameTable := seq(size, _ => NULL), seq(size, _ => NULL);
      idChains, nameChains := seq(size, _ => []), seq(size, _ => []);
      ctr, generation, handed := 0, 0, [];
      new;
      hide *;
      EmptyIndexed(root, top, hash, size);
      FirstTable(map[root := top], root);
      HashId(root);
      NoneHanded(0, 0);
      ValidIs(multiset{}, NULL);
    }

    lemma EmptyIndexed(x: int, q: Node, hash: (int, string) -> int, size: nat)
      requires size > 0 && q.parent == NULL && x != NULL
      ensures Indexed(map[x := q], map[], seq(size, _ => NULL), seq(size, _ => []), x)
      ensures NamesIndexed(map[x := q], map[], seq(size, _ => NULL), seq(size, _ => []), hash)
    {
      assert IdPlaces(map[x := q], size) - {x} == map[];
      assert NamePlaces(map[x := q], hash, size) == map[];
      EmptyIndex(size);
    }

    lemma EmptyIndex(size: nat)
      ensures Index(map[], seq(size, _ => NULL), seq(size, _ => []), map[])
    {
      var table, chains: seq<seq<int>> := seq(size, _ => NULL), seq(size, _ => []);
      forall b | 0 <= b < size
        ensures ChainAt(map[], table, chains, map[], b)
      {
        assert table[b] == NULL && chains[b] == [];
      }
    }
  }
}
