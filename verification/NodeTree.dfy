/** The nodes of the path library: names that lead from parent to child, lookup counts held by the kernel, and
  * the references that keep a node. */
module NodeTree {
  import opened Bytes
  import opened Links

  const ROOT_ID: int := 1
  const UNKNOWN_ID: int := 0xffffffff

  /** A node; the parent is an address, NULL when there is none. */
  datatype Node = Node(nodeid: int, generation: int, refctr: int, parent: int, name: Option<string>, nlookup: int)

  type Nodes = map<int, Node>

  function Lookups(q: Node): int {
    if q.nlookup > 0 then 1 else 0
  }

  /** The nodes with a name below node x. */
  ghost function Children(n: Nodes, x: int): set<int> {
    set y | y in n && n[y].parent == x
  }

  /** The reference counter is one for lookups, one for each named child, and one for each reference that is
    * just about to be dropped. */
  ghost predicate Counted(n: Nodes, x: int, extra: multiset<int>)
    requires x in n
  {
    n[x].refctr == Lookups(n[x]) + |Children(n, x)| + extra[x] && n[x].refctr > 0
  }

  /** A node is named and has a parent, or neither; a named node has been looked up, but for the one that is
    * being forgotten. The root is in no directory. */
  ghost predicate Placed(n: Nodes, root: int, x: int, forgotten: int)
    requires x in n
  {
    && x != NULL && n[x].parent != x && n[x].nlookup >= 0 && n[x].nodeid >= 0
    && if x == root then n[x].parent == NULL && n[x].nodeid == ROOT_ID && n[x].nlookup > 0
       else if n[x].parent == NULL then n[x].name.None?
       else n[x].name.Some? && n[x].parent in n && (n[x].nlookup > 0 || x == forgotten)
  }

  predicate SameName(q: Node, r: Node) {
    q.parent != NULL && q.parent == r.parent && q.name == r.name
  }

  ghost predicate Unique(n: Nodes) {
    && (forall x, y :: x in n && y in n && n[x].nodeid == n[y].nodeid ==> x == y)
    && (forall x, y :: x in n && y in n && SameName(n[x], n[y]) ==> x == y)
  }

  ghost predicate Tree(n: Nodes, root: int, extra: multiset<int>, forgotten: int) {
    && root in n && Unique(n)
    && (forall x :: x in n ==> Counted(n, x, extra) && Placed(n, root, x, forgotten))
    && (forall x :: x in extra ==> x in n)
  }

  /** Dropping a reference; the last one deletes the node. */
  function Unref(n: Nodes, p: int): Nodes
    requires p in n
  {
    if n[p].refctr == 1 then n - {p} else n[p := n[p].(refctr := n[p].refctr - 1)]
  }

  /** Taking a node's name away, its reference on the parent not yet dropped. */
  function Cleared(n: Nodes, x: int): Nodes
    requires x in n
  {
    n[x := n[x].(name := None, parent := NULL)]
  }

  /** A deleted node is not needed: it has no lookups, no children and no name. */
  lemma UnrefTree(n: Nodes, root: int, extra: multiset<int>, forgotten: int, p: int)
    requires Tree(n, root, extra, forgotten) && p in extra && (n[p].parent == NULL || n[p].nlookup > 0)
    ensures Tree(Unref(n, p), root, extra - multiset{p}, forgotten)
    ensures p !in Unref(n, p) ==> n[p].nlookup == 0 && Children(n, p) == {} && n[p].parent == NULL
  {
    var n', extra' := Unref(n, p), extra - multiset{p};
    assert Counted(n, p, extra);
    forall x | x in n'
      ensures Counted(n', x, extra') && Placed(n', root, x, forgotten)
    {
      assert Counted(n, x, extra) && Placed(n, root, x, forgotten);
      assert Children(n', x) == Children(n, x);
    }
  }

  lemma ClearedChildren(n: Nodes, x: int, y: int)
    requires x in n && n[x].parent != NULL && y != NULL
    ensures |Children(Cleared(n, x), y)| == |Children(n, y)| - if y == n[x].parent then 1 else 0
  {
    if y == n[x].parent {
      assert Children(Cleared(n, x), y) == Children(n, y) - {x} && x in Children(n, y);
    } else {
      assert Children(Cleared(n, x), y) == Children(n, y);
    }
  }

  lemma ClearedNode(n: Nodes, root: int, extra: multiset<int>, forgotten: int, x: int, y: int)
    requires x in n && n[x].parent != NULL && x != root && y in n && Counted(n, y, extra)
             && Placed(n, root, y, forgotten)
    ensures y in Cleared(n, x) && Counted(Cleared(n, x), y, extra + multiset{n[x].parent})
    ensures Placed(Cleared(n, x), root, y, forgotten)
  {
    ClearedChildren(n, x, y);
    hide Children;
  }

  lemma ClearedTree(n: Nodes, root: int, extra: multiset<int>, forgotten: int, x: int)
    requires Tree(n, root, extra, forgotten) && x in n && n[x].parent != NULL
    ensures Tree(Cleared(n, x), root, extra + multiset{n[x].parent}, forgotten)
  {
    var n', p := Cleared(n, x), n[x].parent;
    assert Placed(n, root, x, forgotten);
    assert Unique(n');
    hide Counted, Placed, Children, Unique;
    forall y | y in n'
      ensures Counted(n', y, extra + multiset{p}) && Placed(n', root, y, forgotten)
    {
      ClearedNode(n, root, extra, forgotten, x, y);
    }
  }

  /** Giving an unnamed node a name below p. */
  function Named(n: Nodes, x: int, p: int, name: string): Nodes
    requires x in n && p in n
  {
    var n1 := n[p := n[p].(refctr := n[p].refctr + 1)];
    n1[x := n1[x].(name := Some(name), parent := p)]
  }

  ghost predicate NoSuchName(n: Nodes, p: int, name: string) {
    forall y :: y in n && n[y].parent == p ==> n[y].name != Some(name)
  }

  lemma NamedChildren(n: Nodes, x: int, p: int, name: string, y: int)
    requires x in n && p in n && n[x].parent == NULL && p != NULL && y != NULL
    ensures |Children(Named(n, x, p, name), y)| == |Children(n, y)| + if y == p then 1 else 0
  {
    if y == p {
      assert Children(Named(n, x, p, name), y) == Children(n, y) + {x} && x !in Children(n, y);
    } else {
      assert Children(Named(n, x, p, name), y) == Children(n, y);
    }
  }

  lemma NamedNode(n: Nodes, root: int, extra: multiset<int>, forgotten: int, x: int, p: int, name: string, y: int)
    requires x in n && p in n && y in n && x != root && n[x].parent == NULL && p != NULL
    requires (n[x].nlookup > 0 || x == forgotten) && p != x
    requires Counted(n, y, extra) && Placed(n, root, y, forgotten)
    ensures y in Named(n, x, p, name)
    ensures Counted(Named(n, x, p, name), y, extra) && Placed(Named(n, x, p, name), root, y, forgotten)
  {
    NamedChildren(n, x, p, name, y);
    hide Children;
  }

  lemma NamedUnique(n: Nodes, x: int, p: int, name: string)
    requires x in n && p in n && n[x].parent == NULL && NoSuchName(n, p, name) && Unique(n)
    ensures Unique(Named(n, x, p, name))
  {
  }

  lemma NamedTree(n: Nodes, root: int, extra: multiset<int>, forgotten: int, x: int, p: int, name: string)
    requires Tree(n, root, extra, forgotten) && x in n && p in n && x != root && n[x].parent == NULL
             && NoSuchName(n, p, name)
    requires (n[x].nlookup > 0 || x == forgotten) && p != x
    ensures Tree(Named(n, x, p, name), root, extra, forgotten)
  {
    assert Placed(n, root, p, forgotten);
    NamedUnique(n, x, p, name);
    hide Unique, Counted, Placed, Children;
    forall y | y in Named(n, x, p, name)
      ensures Counted(Named(n, x, p, name), y, extra) && Placed(Named(n, x, p, name), root, y, forgotten)
    {
      NamedNode(n, root, extra, forgotten, x, p, name, y);
    }
  }

  /** A new node, on which a reference is held. */
  lemma NewTree(n: Nodes, root: int, x: int, id: int, generation: int)
    requires Tree(n, root, multiset{}, NULL) && x !in n && x != NULL && id >= 0 && forall y :: y in n ==>
             n[y].nodeid != id
    ensures Tree(n[x := Node(id, generation, 1, NULL, None, 0)], root, multiset{x}, x)
  {
    var n' := n[x := Node(id, generation, 1, NULL, None, 0)];
    forall y | y in n'
      ensures Counted(n', y, multiset{x}) && Placed(n', root, y, x)
    {
      if y == x {
        assert forall z :: z in n ==> Placed(n, root, z, NULL);
        assert forall z :: z in n' ==> n'[z].parent != x;
        assert Children(n', x) == {};
      } else {
        assert Counted(n, y, multiset{}) && Placed(n, root, y, NULL);
        assert Children(n', y) == Children(n, y);
      }
    }
  }

  function LookedUp(n: Nodes, x: int): Nodes
    requires x in n
  {
    n[x := n[x].(nlookup := n[x].nlookup + 1)]
  }

  lemma LookedUpTree(n: Nodes, root: int, forgotten: int, x: int)
    requires x in n && Tree(n, root, if n[x].nlookup == 0 then multiset{x} else multiset{}, forgotten)
    requires forgotten == NULL || forgotten == x
    ensures Tree(LookedUp(n, x), root, multiset{}, NULL)
  {
    var n', extra := LookedUp(n, x), if n[x].nlookup == 0 then multiset{x} else multiset{};
    forall y | y in n'
      ensures Counted(n', y, multiset{}) && Placed(n', root, y, NULL)
    {
      assert Counted(n, y, extra) && Placed(n, root, y, forgotten) && Placed(n, root, x, forgotten);
      assert Children(n', y) == Children(n, y);
    }
  }

  function Forgot(n: Nodes, x: int, count: int): Nodes
    requires x in n
  {
    n[x := n[x].(nlookup := n[x].nlookup - count)]
  }

  lemma ForgotNode(n: Nodes, root: int, x: int, count: int, y: int)
    requires x in n && x != root && 0 <= count <= n[x].nlookup && n[x].nlookup > 0 && y in n
    requires Counted(n, y, multiset{}) && Placed(n, root, y, NULL)
    ensures Counted(Forgot(n, x, count), y, if count == n[x].nlookup then multiset{x} else multiset{})
    ensures Placed(Forgot(n, x, count), root, y, if count == n[x].nlookup then x else NULL)
  {
    assert Children(Forgot(n, x, count), y) == Children(n, y);
  }

  lemma ForgotTree(n: Nodes, root: int, x: int, count: int)
    requires Tree(n, root, multiset{}, NULL) && x in n && x != root && 0 <= count <= n[x].nlookup && n[x].nlookup > 0
    ensures Tree(Forgot(n, x, count), root, if count == n[x].nlookup then multiset{x} else multiset{},
                 if count == n[x].nlookup then x else NULL)
  {
    assert Unique(Forgot(n, x, count));
    hide Counted, Placed, Unique;
    forall y | y in Forgot(n, x, count)
      ensures Counted(Forgot(n, x, count), y, if count == n[x].nlookup then multiset{x} else multiset{})
      ensures Placed(Forgot(n, x, count), root, y, if count == n[x].nlookup then x else NULL)
    {
      ForgotNode(n, root, x, count, y);
    }
  }

  /** The nodes that remain are those looked up and those with named children. */
  lemma KeptForAReason(n: Nodes, root: int, x: int)
    requires Tree(n, root, multiset{}, NULL) && x in n
    ensures n[x].nlookup > 0 || Children(n, x) != {}
  {
    assert Counted(n, x, multiset{});
  }

  /** Taking a node's name away, and dropping its reference on the parent. */
  function Unnamed(n: Nodes, x: int): Nodes
    requires x in n && (n[x].parent != NULL ==> n[x].parent in n)
  {
    if n[x].parent == NULL then n else Unref(Cleared(n, x), n[x].parent)
  }

  /** The reference may as well be dropped first. */
  lemma Commute(n: Nodes, x: int, p: int)
    requires x in n && p in n && x != p
    ensures x in Unref(n, p) && p in Cleared(n, x) && Cleared(Unref(n, p), x) == Unref(Cleared(n, x), p)
  {
  }

  lemma PlacedAt(n: Nodes, root: int, extra: multiset<int>, forgotten: int, x: int)
    requires Tree(n, root, extra, forgotten) && x in n && x != root
    ensures n[x].parent != NULL ==> n[x].parent in n && n[x].parent != x && n[x].name.Some?
    ensures n[x].parent == NULL ==> n[x].name.None?
    ensures n[x].parent != NULL && (forgotten == NULL || forgotten == x) && n[n[x].parent].refctr == 1 ==>
              var p := n[x].parent;
              p != root && n[p].name.None? && n[p].parent == NULL && n[p].nlookup == 0 && Children(n, p) == {x}
    ensures n[x].parent != NULL && (forgotten == NULL || forgotten == x) ==>
              var p := n[x].parent; n[p].parent == NULL || n[p].nlookup > 0
    ensures n[x].parent != NULL ==> n[n[x].parent].refctr > 0
  {
    assert Placed(n, root, x, forgotten);
    if n[x].parent != NULL {
      var p := n[x].parent;
      assert Placed(n, root, p, forgotten) && Counted(n, p, extra) && x in Children(n, p);
      assert |Children(n, p) - {x}| == |Children(n, p)| - 1;
      assert Children(n, p) - {x} == {} ==> Children(n, p) == {x};
    }
  }

  /** A node without a name loses nothing; a named one leaves only a parent that nobody needs. */
  lemma UnnamedTree(n: Nodes, root: int, extra: multiset<int>, forgotten: int, x: int)
    requires Tree(n, root, extra, forgotten) && x in n && x != root && (forgotten == NULL || forgotten == x)
    ensures n[x].parent != NULL ==> n[x].parent in n && n[x].parent != x
    ensures Tree(Unnamed(n, x), root, extra, forgotten) && x in Unnamed(n, x)
    ensures forall z :: z in n && z !in Unnamed(n, x) ==> z == n[x].parent && n[z].nlookup == 0 && Children(n, z) == {x}
  {
    PlacedAt(n, root, extra, forgotten, x);
    if n[x].parent != NULL {
      var p := n[x].parent;
      ClearedTree(n, root, extra, forgotten, x);
      hide Tree, Children;
      UnrefTree(Cleared(n, x), root, extra + multiset{p}, forgotten, p);
      assert extra + multiset{p} - multiset{p} == extra;
    }
  }

  lemma UnrefAt(n: Nodes, p: int)
    requires p in n
    ensures forall z :: z in Unref(n, p) ==> z in n && Unref(n, p)[z] == n[z].(refctr := Unref(n, p)[z].refctr)
    ensures forall z :: z in n && (z != p || n[p].refctr != 1) ==> z in Unref(n, p)
  {
  }

  lemma ClearedAt(n: Nodes, x: int)
    requires x in n
    ensures forall z :: z in n <==> z in Cleared(n, x)
    ensures forall z :: z in n ==> Cleared(n, x)[z] == if z == x then n[z].(name := None, parent := NULL) else n[z]
  {
  }

  /** What taking a name away does to the other nodes: nothing, but for a reference on the parent. */
  ghost predicate NameTaken(n: Nodes, n': Nodes, x: int)
    requires x in n
  {
    && x in n' && n'[x].name.None? && n'[x].parent == NULL && n'[x].nlookup == n[x].nlookup
    && (forall z :: z in n' ==> z in n && n'[z].nodeid == n[z].nodeid && n'[z].nlookup == n[z].nlookup)
    && (forall z :: z in n' && z != x ==> n'[z].name == n[z].name && n'[z].parent == n[z].parent)
    && (forall z :: z in n && n[z].nlookup > 0 ==> z in n')
  }

  lemma UnnamedKeeps(n: Nodes, root: int, extra: multiset<int>, forgotten: int, x: int)
    requires Tree(n, root, extra, forgotten) && x in n && x != root && (forgotten == NULL || forgotten == x)
    ensures n[x].parent != NULL ==> n[x].parent in n
    ensures NameTaken(n, Unnamed(n, x), x) && x in Unnamed(n, x)
    ensures var q := Unnamed(n, x)[x]; q.name.None? && q.parent == NULL && q.nlookup == n[x].nlookup
  {
    PlacedAt(n, root, extra, forgotten, x);
    hide Tree, Children, Unref, Cleared, NameTaken;
    if n[x].parent != NULL {
      var m, p := Cleared(n, x), n[x].parent;
      ClearedAt(n, x);
      UnrefAt(m, p);
      Taken(n, m, Unref(m, p), x, p);
    } else {
      NothingTaken(n, x);
    }
  }

  lemma Taken(n: Nodes, m: Nodes, n': Nodes, x: int, p: int)
    requires x in n && p in n && p != x && (n[p].nlookup > 0 ==> p in n')
    requires m.Keys == n.Keys
    requires forall z :: z in n ==> m[z] == if z == x then n[z].(name := None, parent := NULL) else n[z]
    requires forall z :: z in n' ==> z in m && n'[z] == m[z].(refctr := n'[z].refctr)
    requires forall z :: z in m && z != p ==> z in n'
    ensures NameTaken(n, n', x)
  {
  }

  lemma NothingTaken(n: Nodes, x: int)
    requires x in n && n[x].name.None? && n[x].parent == NULL
    ensures NameTaken(n, n, x)
  {
  }

  /** A node without a name can be forgotten completely. */
  lemma NotForgotten(n: Nodes, root: int, x: int)
    requires Tree(n, root, multiset{}, x) && (x in n ==> n[x].parent == NULL)
    ensures Tree(n, root, multiset{}, NULL)
  {
    forall y | y in n
      ensures Placed(n, root, y, NULL)
    {
      assert Placed(n, root, y, x);
    }
  }

  /** The table after a node has been forgotten. */
  function AfterForget(n: Nodes, x: int, count: int): Nodes
    requires x in n && n[x].parent != x && (n[x].parent != NULL ==> n[x].parent in n)
  {
    var m := Forgot(n, x, count);
    if m[x].nlookup == 0 then Unref(Unnamed(m, x), x) else m
  }

  /** Forgetting the last lookups deletes the node unless it has named children, and its directory if that has
    * become useless: nothing is deleted that has been looked up or has children. */
  lemma ForgetTree(n: Nodes, root: int, x: int, count: int)
    requires Tree(n, root, multiset{}, NULL) && x in n && x != root && 0 <= count <= n[x].nlookup && n[x].nlookup > 0
    ensures n[x].parent != x && (n[x].parent != NULL ==> n[x].parent in n)
    ensures Tree(AfterForget(n, x, count), root, multiset{}, NULL)
    ensures forall z :: z in n && z !in AfterForget(n, x, count) ==>
              Forgot(n, x, count)[z].nlookup == 0 && Children(AfterForget(n, x, count), z) == {}
  {
    PlacedAt(n, root, multiset{}, NULL, x);
    ForgotTree(n, root, x, count);
    if count == n[x].nlookup {
      var m := Forgot(n, x, count);
      UnnamedTree(m, root, multiset{x}, x, x);
      UnnamedKeeps(m, root, multiset{x}, x, x);
      var m1 := Unnamed(m, x);
      UnrefTree(m1, root, multiset{x}, x, x);
      assert multiset{x} - multiset{x} == multiset{};
      NotForgotten(Unref(m1, x), root, x);
      assert NULL !in m by {
        assert forall y :: y in m ==> Placed(m, root, y, x);
      }
      ForgetDeletes(m, m1, x);
    }
  }

  lemma ForgetDeletes(m: Nodes, m1: Nodes, x: int)
    requires x in m && x in m1 && m[x].nlookup == 0 && m1[x].parent == NULL && m1[x].nlookup == 0 && NULL !in m
    requires forall z :: z in m1 ==> z in m && (z != x ==> m1[z].parent == m[z].parent)
    requires forall z :: z in m && z !in m1 ==> z == m[x].parent && m[z].nlookup == 0 && Children(m, z) == {x}
    requires x !in Unref(m1, x) ==> Children(m1, x) == {}
    ensures forall z :: z in m && z !in Unref(m1, x) ==> m[z].nlookup == 0 && Children(Unref(m1, x), z) == {}
  {
    var n' := Unref(m1, x);
    forall z | z in m && z !in n'
      ensures m[z].nlookup == 0 && Children(n', z) == {}
    {
      if z == x {
        assert forall y :: y in n' && n'[y].parent == x ==> y in Children(m1, x);
      } else {
        assert z !in m1;
        forall y | y in n'
          ensures n'[y].parent != z
        {
          assert y in Children(m, z) <==> m[y].parent == z;
        }
      }
    }
  }

  /** The table after the node x was given the name of node y (NULL for none), in directory p. */
  function AfterRename(n: Nodes, x: int, y: int, p: int, name: string): Nodes
    requires x in n && (y != NULL ==> y in n && (n[y].parent != NULL ==> n[y].parent in n))
    requires var m := if y == NULL then n else Unnamed(n, y);
             x in m && (m[x].parent != NULL ==> m[x].parent in m) && x in Unnamed(m, x) && p in Unnamed(m, x)
  {
    Named(Unnamed(if y == NULL then n else Unnamed(n, y), x), x, p, name)
  }

  lemma NameGone(n: Nodes, n': Nodes, x: int, p: int, name: string)
    requires x in n' && n'[x].parent == NULL && p != NULL
    requires forall z :: z in n' && z != x ==> z in n && n'[z].name == n[z].name && n'[z].parent == n[z].parent
    requires NoSuchName(n, p, name) || (Unique(n) && x in n && n[x].parent == p && n[x].name == Some(name))
    ensures NoSuchName(n', p, name)
  {
  }

  lemma NamedAt(n: Nodes, x: int, p: int, name: string)
    requires x in n && p in n && x != p
    ensures forall z :: z in n <==> z in Named(n, x, p, name)
    ensures Named(n, x, p, name)[x] == n[x].(name := Some(name), parent := p)
    ensures Named(n, x, p, name)[p] == n[p].(refctr := n[p].refctr + 1)
    ensures forall z :: z in n && z != x && z != p ==> Named(n, x, p, name)[z] == n[z]
  {
  }

  /** Renaming moves one node and takes the name of the one it replaces; every other name stays, and nothing
    * that has been looked up is lost. */
  ghost predicate Renamed(n: Nodes, n': Nodes, x: int, y: int, p: int, name: string) {
    && x in n' && n'[x].name == Some(name) && n'[x].parent == p
    && (forall z :: z in n && n[z].nlookup > 0 ==> z in n')
    && (forall z :: z in n' ==> z in n && n'[z].nodeid == n[z].nodeid && n'[z].nlookup == n[z].nlookup)
    && (forall z :: z in n' && z != x && z != y ==> n'[z].name == n[z].name && n'[z].parent == n[z].parent)
    && (y in n' && y != x ==> n'[y].name.None?)
  }

  lemma RenamedFrom(n: Nodes, m: Nodes, m1: Nodes, x: int, y: int, p: int, name: string)
    requires x in n && x in m && x in m1 && p in m1 && x != p && y != NULL && y in n && NameTaken(n, m, y)
             && NameTaken(m, m1, x)
    ensures Renamed(n, Named(m1, x, p, name), x, y, p, name)
  {
    NamedAt(m1, x, p, name);
    hide Named;
  }

  lemma RenamedFresh(n: Nodes, m1: Nodes, x: int, p: int, name: string)
    requires x in n && x in m1 && p in m1 && x != p && NULL !in n && NameTaken(n, m1, x)
    ensures Renamed(n, Named(m1, x, p, name), x, NULL, p, name)
  {
    NamedAt(m1, x, p, name);
    hide Named;
  }

  lemma RenameMeans(n: Nodes, root: int, x: int, y: int, p: int, name: string)
    requires Tree(n, root, multiset{}, NULL) && x in n && x != root && (y != NULL ==> y in n && y != root) && x != p
    requires y != NULL ==> y in n && (n[y].parent != NULL ==> n[y].parent in n)
    requires var m := if y == NULL then n else Unnamed(n, y);
             x in m && (m[x].parent != NULL ==> m[x].parent in m) && x in Unnamed(m, x) && p in Unnamed(m, x)
    ensures Renamed(n, AfterRename(n, x, y, p, name), x, y, p, name)
  {
    if y != NULL {
      UnnamedTree(n, root, multiset{}, NULL, y);
      UnnamedKeeps(n, root, multiset{}, NULL, y);
      hide Tree, Unnamed, NameTaken, Named;
      UnnamedKeeps(Unnamed(n, y), root, multiset{}, NULL, x);
      RenamedFrom(n, Unnamed(n, y), Unnamed(Unnamed(n, y), x), x, y, p, name);
    } else {
      assert NULL !in n by {
        assert forall z :: z in n ==> Placed(n, root, z, NULL);
      }
      hide Tree, Unnamed, NameTaken, Named;
      UnnamedKeeps(n, root, multiset{}, NULL, x);
      RenamedFresh(n, Unnamed(n, x), x, p, name);
    }
  }
}
