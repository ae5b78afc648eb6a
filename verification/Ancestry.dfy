/** The way up from a node to the root: it must come to an end, and renaming is what can make it a circle. */
module Ancestry {
  import opened Bytes
  import opened Links
  import opened NodeTree

  /** Every parent has a smaller rank. */
  ghost predicate Ranked(n: Nodes, rank: map<int, nat>) {
    && n.Keys <= rank.Keys
    && forall x :: x in n && n[x].parent in n ==> rank[n[x].parent] < rank[x]
  }

  /** Going up the parents comes to an end, from every node. */
  ghost predicate Grounded(n: Nodes) {
    exists rank :: Ranked(n, rank)
  }

  ghost function Rank(n: Nodes): (rank: map<int, nat>)
    requires Grounded(n)
    ensures Ranked(n, rank)
  {
    var rank :| Ranked(n, rank);
    rank
  }

  /** How far it is up from a node at most. */
  ghost function Height(n: Nodes, x: int): nat
    requires Grounded(n)
  {
    if x in n then Rank(n)[x] + 1 else 0
  }

  /** Node x and the nodes above it. */
  ghost function Up(n: Nodes, x: int): (up: set<int>)
    requires Grounded(n)
    ensures up <= n.Keys && (x in n ==> x in up)
    decreases Height(n, x)
  {
    if x !in n then {} else {x} + Up(n, n[x].parent)
  }

  /** A table whose nodes are those of another, but for their parents that may be gone. */
  ghost predicate Looser(n: Nodes, n': Nodes) {
    forall x :: x in n' ==> x in n && (n'[x].parent == n[x].parent || n'[x].parent !in n')
  }

  lemma LooserGrounded(n: Nodes, n': Nodes)
    requires Grounded(n) && Looser(n, n')
    ensures Grounded(n')
  {
    var rank := Rank(n);
    assert forall x :: x in n' ==> x in n && x in rank;
    assert Ranked(n', rank);
  }

  /** There is nothing above a node that was not above it before. */
  lemma {:induction false} UpLooser(n: Nodes, n': Nodes, x: int)
    requires Grounded(n) && Looser(n, n') && Grounded(n')
    ensures Up(n', x) <= Up(n, x)
    decreases Height(n', x)
  {
    if x in n' {
      UpLooser(n, n', n'[x].parent);
    }
  }

  /** What is above x is above everything below x. */
  lemma {:induction false} UpThrough(n: Nodes, z: int, x: int)
    requires Grounded(n) && x in Up(n, z) && z != x
    ensures z in n && x in Up(n, n[z].parent)
  {
  }

  /** Ranks never rise on the way up. */
  lemma {:induction false} RankUp(n: Nodes, n': Nodes, rank: map<int, nat>, z: int, x: int)
    requires Grounded(n) && x in Up(n, z) && Ranked(n', rank) && n.Keys <= n'.Keys
    requires forall y :: y in n && y != x ==> n'[y].parent == n[y].parent
    ensures z in n && x in n && rank[x] <= rank[z]
    decreases Height(n, z)
  {
    if z != x {
      UpThrough(n, z, x);
      RankUp(n, n', rank, n[z].parent, x);
    }
  }

  /** Naming x below p keeps the ways up from ending in a circle exactly when p is not below x. */
  lemma NamedGrounded(n: Nodes, x: int, p: int, name: string)
    requires Grounded(n) && x in n && p in n && n[x].parent !in n
    ensures Grounded(Named(n, x, p, name)) <==> x !in Up(n, p)
  {
    var n' := Named(n, x, p, name);
    NamedParents(n, x, p, name);
    hide Named;
    if x in Up(n, p) {
      if Grounded(n') {
        assert n'[x].parent == p && p in n';
        RankUp(n, n', Rank(n'), p, x);
      }
    } else {
      var rank := Rank(n);
      var rank' := map z | z in n :: if x in Up(n, z) then rank[z] + rank[p] + 1 else rank[z];
      forall z | z in n' && n'[z].parent in n' ensures rank'[n'[z].parent] < rank'[z] {
        if z != x {
          assert Up(n, z) == {z} + Up(n, n[z].parent);
        }
      }
      assert Ranked(n', rank');
    }
  }

  lemma NamedParents(n: Nodes, x: int, p: int, name: string)
    requires x in n && p in n
    ensures var n' := Named(n, x, p, name);
            && n'.Keys == n.Keys && n'[x].parent == p && forall z :: z in n && z != x ==> n'[z].parent == n[z].parent
  {
  }

  // ----- the operations of the table -----

  lemma UnnamedLooser(n: Nodes, x: int)
    requires x in n && (n[x].parent != NULL ==> n[x].parent in n) && NULL !in n
    ensures Looser(n, Unnamed(n, x))
  {
  }

  lemma RootIsNotNull(n: Nodes, root: int)
    requires Tree(n, root, multiset{}, NULL)
    ensures NULL !in n && forall x :: x in n ==> n[x].parent == NULL || n[x].parent in n
  {
    assert forall x :: x in n ==> Placed(n, root, x, NULL);
  }

  /** A lookup of a node that is there. */
  lemma LookedUpGrounded(n: Nodes, x: int)
    requires Grounded(n) && x in n
    ensures Grounded(LookedUp(n, x))
  {
    LooserGrounded(n, LookedUp(n, x));
  }

  /** A new node below p. */
  lemma NewGrounded(n: Nodes, root: int, x: int, q: Node, p: int, name: string)
    requires Tree(n, root, multiset{}, NULL) && Grounded(n) && x !in n && x != NULL && p in n && q.parent == NULL
    ensures Grounded(Named(n[x := q], x, p, name))
  {
    RootIsNotNull(n, root);
    var m := n[x := q];
    assert Ranked(m, Rank(n)[x := 0]) by {
      hide Tree;
    }
    NotAbove(n, m, x, p);
    NamedGrounded(m, x, p, name);
  }

  /** A node that was not there is above no other. */
  lemma {:induction false} NotAbove(n: Nodes, m: Nodes, x: int, z: int)
    requires Grounded(m) && x !in n && z in n && x in m && m == n[x := m[x]]
    requires forall y :: y in n ==> n[y].parent == NULL || n[y].parent in n
    requires NULL !in m
    ensures x !in Up(m, z)
    decreases Height(m, z)
  {
    if n[z].parent != NULL {
      NotAbove(n, m, x, n[z].parent);
    }
  }

  lemma ForgetGrounded(n: Nodes, root: int, x: int, count: int)
    requires Tree(n, root, multiset{}, NULL) && Grounded(n) && x in n && x != root && 0 <= count <= n[x].nlookup
             && n[x].nlookup > 0
    ensures n[x].parent != x && (n[x].parent != NULL ==> n[x].parent in n)
    ensures Grounded(AfterForget(n, x, count))
  {
    RootIsNotNull(n, root);
    ForgetTree(n, root, x, count);
    var m := Forgot(n, x, count);
    LooserGrounded(n, m);
    if m[x].nlookup == 0 {
      UnnamedLooser(m, x);
      LooserGrounded(m, Unnamed(m, x));
      LooserGrounded(Unnamed(m, x), Unref(Unnamed(m, x), x));
    }
  }

  lemma RemoveGrounded(n: Nodes, root: int, x: int)
    requires Tree(n, root, multiset{}, NULL) && Grounded(n) && x in n
    ensures n[x].parent != NULL ==> n[x].parent in n
    ensures Grounded(Unnamed(n, x))
  {
    RootIsNotNull(n, root);
    UnnamedLooser(n, x);
    LooserGrounded(n, Unnamed(n, x));
  }

  /** The table when the old names have been taken away. */
  function BeforeRename(n: Nodes, x: int, y: int): Nodes
    requires x in n && (y != NULL ==> y in n && (n[y].parent != NULL ==> n[y].parent in n))
    requires var m := if y == NULL then n else Unnamed(n, y); x in m && (m[x].parent != NULL ==> m[x].parent in m)
  {
    Unnamed(if y == NULL then n else Unnamed(n, y), x)
  }

  /** Below a node, other than the one looked from, there is a child that leads to it. */
  lemma {:induction false} ChildBelow(n: Nodes, z: int, w: int) returns (c: int)
    requires Grounded(n) && w in Up(n, z) && w != z
    ensures c in n && c in Up(n, z) && n[c].parent == w && c in Children(n, w)
    decreases Height(n, z)
  {
    if n[z].parent == w {
      c := z;
    } else {
      c := ChildBelow(n, n[z].parent, w);
    }
  }

  /** A way up on which nothing changes. */
  lemma {:induction false} UpKept(n: Nodes, m: Nodes, z: int, x: int)
    requires Grounded(n) && Grounded(m) && x in Up(n, z) && x in m
    requires forall w :: w in Up(n, z) && x in Up(n, w) && w != x ==> w in m && m[w].parent == n[w].parent
    ensures x in Up(m, z)
    decreases Height(n, z)
  {
    if z != x {
      UpThrough(n, z, x);
      UpKept(n, m, n[z].parent, x);
    }
  }

  lemma UnnamedAt(n: Nodes, root: int, x: int)
    requires Tree(n, root, multiset{}, NULL) && x in n && x != root
    ensures n[x].parent != NULL ==> n[x].parent in n
    ensures Tree(Unnamed(n, x), root, multiset{}, NULL) && x in Unnamed(n, x)
    ensures forall z :: z in n && z !in Unnamed(n, x) ==> z == n[x].parent && Children(n, z) == {x}
    ensures forall z :: z in Unnamed(n, x) && z != x ==> z in n && Unnamed(n, x)[z].parent == n[z].parent
  {
    UnnamedTree(n, root, multiset{}, NULL, x);
    UnnamedKeeps(n, root, multiset{}, NULL, x);
  }

  /** Taking the name of y away does not change the way up from p to x when y is not on it, or is x itself. */
  lemma UpUnnamed(n: Nodes, root: int, y: int, p: int, x: int)
    requires Tree(n, root, multiset{}, NULL) && Grounded(n) && y in n && y != root
    requires n[y].parent != NULL ==> n[y].parent in n
    requires Grounded(Unnamed(n, y)) && p in Unnamed(n, y) && x in Unnamed(n, y) && x in Up(n, p)
    requires y == x || y !in Up(n, p)
    ensures x in Up(Unnamed(n, y), p)
  {
    UnnamedAt(n, root, y);
    var m := Unnamed(n, y);
    hide Tree, Unnamed;
    forall w | w in Up(n, p) && x in Up(n, w) && w != x ensures w in m && m[w].parent == n[w].parent {
      if w !in m {
        if y == x {
          RankUp(n, n, Rank(n), w, x);
        } else {
          var c := ChildBelow(n, p, w);
        }
        assert false;
      }
    }
    UpKept(n, m, p, x);
  }

  /** Renaming makes a circle exactly when x is above the directory once the old names are gone. When the node
    * to be replaced is not above the directory, this is so exactly when x was above the directory before. */
  lemma RenameGrounded(n: Nodes, root: int, x: int, y: int, p: int, name: string)
    requires Tree(n, root, multiset{}, NULL) && Grounded(n) && x in n && x != root
             && (y != NULL ==> y in n && y != root)
    requires y != NULL ==> n[y].parent != NULL ==> n[y].parent in n
    requires var m := if y == NULL then n else Unnamed(n, y);
             x in m && (m[x].parent != NULL ==> m[x].parent in m) && x in Unnamed(m, x) && p in Unnamed(m, x)
    ensures Grounded(BeforeRename(n, x, y))
    ensures Grounded(AfterRename(n, x, y, p, name)) <==> x !in Up(BeforeRename(n, x, y), p)
    ensures x !in Up(n, p) ==> Grounded(AfterRename(n, x, y, p, name))
    ensures y == NULL || y !in Up(n, p) ==> (Grounded(AfterRename(n, x, y, p, name)) <==> x !in Up(n, p))
  {
    var m := if y == NULL then n else Unnamed(n, y);
    if y != NULL {
      RemoveGrounded(n, root, y);
      RootIsNotNull(n, root);
      UnnamedLooser(n, y);
      UpLooser(n, m, p);
      UnnamedAt(n, root, y);
    }
    RemoveGrounded(m, root, x);
    RootIsNotNull(m, root);
    UnnamedLooser(m, x);
    UnnamedAt(m, root, x);
    var m1 := Unnamed(m, x);
    UpLooser(m, m1, p);
    assert m1[x].parent == NULL;
    RootIsNotNull(m1, root);
    NamedGrounded(m1, x, p, name);
    if x in Up(n, p) && (y == NULL || y !in Up(n, p)) {
      if y != NULL {
        UpUnnamed(n, root, y, p, x);
      }
      UpUnnamed(m, root, x, p, x);
    }
  }

  // ----- runs of the table -----

  /** What is done to the table: a node is looked up or created, lookups are given back, a name is removed, or
    * node x is renamed, in place of y (NULL for none). */
  datatype Operation =
    | Find(x: int)
    | Create(x: int, id: int, generation: int, p: int, name: string)
    | Forget(x: int, count: int)
    | Remove(x: int)
    | Rename(x: int, y: int, p: int, name: string)

  /** What the operations ask for; of a renaming also that x is not above the directory. */
  ghost predicate Allowed(n: Nodes, root: int, op: Operation)
    requires Grounded(n)
  {
    match op
    case Find(x) => x in n && n[x].nlookup > 0
    case Create(x, id, _, p, name) =>
      && x !in n && x != NULL && p in n && p != NULL && id >= 0 && NoSuchName(n, p, name)
      && forall y :: y in n ==> n[y].nodeid != id
    case Forget(x, count) => x in n && x != root && 0 <= count <= n[x].nlookup && n[x].nlookup > 0
    case Remove(x) => x in n && x != root
    case Rename(x, y, p, name) =>
      && x in n && x != root && n[x].nlookup > 0 && p in n && n[p].nlookup > 0 && x !in Up(n, p)
      && if y == NULL then NoSuchName(n, p, name)
         else y in n && y != root && n[y].parent == p && n[y].name == Some(name)
  }

  /** The operation leads from table n to table n'. */
  ghost predicate Leads(n: Nodes, root: int, op: Operation, n': Nodes)
    requires Tree(n, root, multiset{}, NULL) && Grounded(n) && Allowed(n, root, op)
  {
    Defined(n, root, op);
    match op
    case Find(x) => n' == LookedUp(n, x)
    case Create(x, id, generation, p, name) => n' == Named(n[x := Node(id, generation, 1, NULL, None, 1)], x, p, name)
    case Forget(x, count) => n' == AfterForget(n, x, count)
    case Remove(x) => n' == Unnamed(n, x)
    case Rename(x, y, p, name) => n' == AfterRename(n, x, y, p, name)
  }

  /** The tables that the operations lead to are defined. */
  lemma Defined(n: Nodes, root: int, op: Operation)
    requires Tree(n, root, multiset{}, NULL) && Grounded(n) && Allowed(n, root, op)
    ensures forall x :: x in n ==> n[x].parent != x && (n[x].parent != NULL ==> n[x].parent in n)
    ensures op.Rename? ==>
              && (op.y != NULL ==> op.y in n)
              && var m := if op.y == NULL then n else Unnamed(n, op.y);
                 && op.x in m && (m[op.x].parent != NULL ==> m[op.x].parent in m)
                 && op.x in Unnamed(m, op.x) && op.p in Unnamed(m, op.x)
  {
    assert forall x :: x in n ==> Placed(n, root, x, NULL);
    if op.Rename? {
      var m := if op.y == NULL then n else Unnamed(n, op.y);
      if op.y != NULL {
        UnnamedTree(n, root, multiset{}, NULL, op.y);
        UnnamedKeeps(n, root, multiset{}, NULL, op.y);
      }
      UnnamedTree(m, root, multiset{}, NULL, op.x);
      UnnamedKeeps(m, root, multiset{}, NULL, op.x);
    }
  }

  /** A run: the table has its root only, and then one operation after the other is done. */
  ghost predicate Run(tables: seq<Nodes>, ops: seq<Operation>, root: int) {
    && root != NULL && |tables| == |ops| + 1
    && tables[0] == map[root := Node(ROOT_ID, 0, 1, NULL, Some("/"), 1)]
    && forall i :: 0 <= i < |ops| ==> Next(tables[i], root, ops[i], tables[i + 1])
  }

  ghost predicate Next(n: Nodes, root: int, op: Operation, n': Nodes) {
    Tree(n, root, multiset{}, NULL) && Grounded(n) ==> Allowed(n, root, op) && Leads(n, root, op, n')
  }

  lemma NextTree(n: Nodes, root: int, op: Operation, n': Nodes)
    requires Tree(n, root, multiset{}, NULL) && Grounded(n) && Allowed(n, root, op) && Leads(n, root, op, n')
    ensures Tree(n', root, multiset{}, NULL)
  {
    Defined(n, root, op);
    RootIsNotNull(n, root);
    match op
    case Find(x) => LookedUpTree(n, root, NULL, x);
    case Create(x, id, generation, p, name) =>
      NewTree(n, root, x, id, generation);
      var m := n[x := Node(id, generation, 1, NULL, None, 0)];
      hide Tree;
      LookedUpTree(m, root, x, x);
      assert LookedUp(m, x) == n[x := Node(id, generation, 1, NULL, None, 1)];
      NoNameHere(n, m, x, p, name);
      NamedTree(LookedUp(m, x), root, multiset{}, NULL, x, p, name);
    case Forget(x, count) => ForgetTree(n, root, x, count);
    case Remove(x) => UnnamedTree(n, root, multiset{}, NULL, x);
    case Rename(x, y, p, name) => RenameTree(n, root, x, y, p, name);
  }

  lemma NoNameHere(n: Nodes, m: Nodes, x: int, p: int, name: string)
    requires NoSuchName(n, p, name) && x in m && m[x].parent == NULL && p != NULL && m == n[x := m[x]]
    ensures NoSuchName(LookedUp(m, x), p, name)
  {
  }

  lemma RenameTree(n: Nodes, root: int, x: int, y: int, p: int, name: string)
    requires Tree(n, root, multiset{}, NULL) && Grounded(n) && Allowed(n, root, Rename(x, y, p, name))
    requires y != NULL ==> y in n && (n[y].parent != NULL ==> n[y].parent in n)
    requires var m := if y == NULL then n else Unnamed(n, y);
             x in m && (m[x].parent != NULL ==> m[x].parent in m) && x in Unnamed(m, x) && p in Unnamed(m, x)
    ensures Tree(AfterRename(n, x, y, p, name), root, multiset{}, NULL)
  {
    RootIsNotNull(n, root);
    var m := if y == NULL then n else Unnamed(n, y);
    if y != NULL {
      UnnamedTree(n, root, multiset{}, NULL, y);
      UnnamedKeeps(n, root, multiset{}, NULL, y);
      NameGone(n, m, y, p, name);
    }
    UnnamedTree(m, root, multiset{}, NULL, x);
    UnnamedKeeps(m, root, multiset{}, NULL, x);
    var m1 := Unnamed(m, x);
    NameGone(m, m1, x, p, name);
    hide Tree, Unnamed;
    NamedTree(m1, root, multiset{}, NULL, x, p, name);
  }

  lemma NextGrounded(n: Nodes, root: int, op: Operation, n': Nodes)
    requires Tree(n, root, multiset{}, NULL) && Grounded(n) && Allowed(n, root, op) && Leads(n, root, op, n')
    ensures Grounded(n')
  {
    Defined(n, root, op);
    match op
    case Find(x) => LookedUpGrounded(n, x);
    case Create(x, id, generation, p, name) =>
      NewGrounded(n, root, x, Node(id, generation, 1, NULL, None, 1), p, name);
    case Forget(x, count) => ForgetGrounded(n, root, x, count);
    case Remove(x) => RemoveGrounded(n, root, x);
    case Rename(x, y, p, name) => RenameGrounded(n, root, x, y, p, name);
  }

  /** In every state of every run the table is correct and every way up comes to an end. */
  lemma {:induction false} AlwaysGrounded(tables: seq<Nodes>, ops: seq<Operation>, root: int, i: nat)
    requires Run(tables, ops, root) && i < |tables|
    ensures Tree(tables[i], root, multiset{}, NULL) && Grounded(tables[i])
    decreases i
  {
    if i == 0 {
      FirstTable(tables[0], root);
    } else {
      AlwaysGrounded(tables, ops, root, i - 1);
      hide Tree, Grounded, Allowed, Leads;
      assert Next(tables[i - 1], root, ops[i - 1], tables[i - 1 + 1]);
      NextTree(tables[i - 1], root, ops[i - 1], tables[i]);
      NextGrounded(tables[i - 1], root, ops[i - 1], tables[i]);
    }
  }

  lemma FirstTable(n: Nodes, root: int)
    requires root != NULL && n == map[root := Node(ROOT_ID, 0, 1, NULL, Some("/"), 1)]
    ensures Tree(n, root, multiset{}, NULL) && Grounded(n)
  {
    assert Children(n, root) == {};
    assert Ranked(n, map[root := 0]);
  }
}
