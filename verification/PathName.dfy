/** Building the path of a node backwards, from the node up to the root, in a buffer that grows. */
module PathName {
  import opened Bytes
  import opened Links
  import opened NodeTree
  import opened Ancestry

  const FULL: int := 0xffffffff

  /** The path so far is what is behind s, up to the terminating NUL. */
  ghost predicate Holding(buf: array<char>, s: int)
    reads buf
  {
    0 <= s < buf.Length <= FULL && buf[buf.Length - 1] == '\0'
  }

  ghost function Text(buf: array<char>, s: int): string
    requires Holding(buf, s)
    reads buf
  {
    buf[s..buf.Length - 1]
  }

  /** How far the buffer must be enlarged. */
  method NewSize(bufsize: nat, needed: nat) returns (size: nat)
    requires 0 < bufsize <= FULL && needed <= FULL
    ensures needed <= size && bufsize <= size <= FULL
  {
    size := bufsize;
    while size < needed
      invariant bufsize <= size <= FULL
      decreases FULL - size
    {
      if size >= 0x80000000 {
        size := FULL;
      } else {
        size := size * 2;
      }
    }
  }

  /** Enlarge the buffer and move the path to its new end. */
  method Enlarge(buf0: array<char>, s0: nat, len: nat) returns (buf: array<char>, s: nat)
    requires Holding(buf0, s0) && buf0.Length - s0 + len + 1 <= FULL
    ensures fresh(buf) && Holding(buf, s) && Text(buf, s) == old(Text(buf0, s0)) && s > len
  {
    var bufsize := buf0.Length;
    var pathlen := bufsize - s0;
    var newbufsize := NewSize(bufsize, pathlen + len + 1);
    buf := new char[newbufsize](i requires 0 <= i reads buf0 => if i < buf0.Length then buf0[i] else '\0');
    s := newbufsize - pathlen;
    forall j | s <= j < newbufsize {
      buf[j] := buf[j - s + s0];
    }
    assert forall j :: s <= j < newbufsize ==> buf[j] == buf0[j - s + s0];
    ghost var text := Text(buf0, s0);
    assert forall i :: 0 <= i < |text| ==> text[i] == buf0[s0 + i] == buf[s + i];
    assert Text(buf, s) == text;
  }

  /** Put "/" and a name in front of the path. */
  method AddName(buf0: array<char>, s0: nat, name: string) returns (buf: array<char>, s: nat)
    requires Holding(buf0, s0) && buf0.Length - s0 + |name| + 1 <= FULL
    modifies buf0
    ensures (buf == buf0 || fresh(buf)) && Holding(buf, s)
    ensures Text(buf, s) == "/" + name + old(Text(buf0, s0))
  {
    buf, s := buf0, s0;
    var len := |name|;
    if s - len <= 0 {
      buf, s := Enlarge(buf0, s0, len);
    }
    ghost var text := Text(buf, s);
    s := s - len;
    forall j | s <= j < s + len {
      buf[j] := name[j - s];
    }
    s := s - 1;
    buf[s] := '/';
    assert Text(buf, s) == "/" + name + text;
  }

  /** The names from the root to node x, each behind a "/"; None if the way up does not lead to the root. */
  ghost function PathTo(n: Nodes, x: int): Option<string>
    requires Grounded(n)
    decreases Height(n, x)
  {
    if x !in n then None
    else if n[x].nodeid == ROOT_ID then Some("")
    else if n[x].name.None? then None
    else Extended(PathTo(n, n[x].parent), "/" + n[x].name.value)
  }

  ghost function Extended(path: Option<string>, more: string): Option<string> {
    if path.Some? then Some(path.value + more) else None
  }

  /** The nodes on the way up from x, the root excluded. */
  ghost function Above(n: Nodes, x: int): (up: seq<int>)
    requires Grounded(n)
    ensures forall y :: y in up ==> y in n
    decreases Height(n, x)
  {
    if x !in n || n[x].nodeid == ROOT_ID then [] else [x] + Above(n, n[x].parent)
  }

  /** A node has no path exactly when a node on its way up, itself included, has no name. */
  lemma {:induction false} NoPath(n: Nodes, root: int, extra: multiset<int>, x: int)
    requires Grounded(n) && Tree(n, root, extra, NULL) && x in n
    ensures PathTo(n, x) == None <==> exists y :: y in Above(n, x) && n[y].name.None?
    decreases Height(n, x)
  {
    assert Placed(n, root, x, NULL) && Placed(n, root, root, NULL);
    if x != root {
      var up := Above(n, x);
      if n[x].name.None? {
        assert x in up;
      } else {
        NoPath(n, root, extra, n[x].parent);
        assert forall y :: y in up <==> y == x || y in Above(n, n[x].parent);
      }
    }
  }

  /** The size of the names on the way up. */
  ghost function Climb(n: Nodes, x: int): nat
    requires Grounded(n)
    decreases Height(n, x)
  {
    if x !in n || n[x].nodeid == ROOT_ID || n[x].name.None? then 0
    else |n[x].name.value| + 1 + Climb(n, n[x].parent)
  }

  /** The path of node x, with a further name if one is given. */
  method GetPathName(n: Nodes, x: int, name: Option<string>, ghost root: int) returns (path: Option<string>)
    requires Tree(n, root, multiset{}, NULL) && Grounded(n) && x in n
    requires Climb(n, x) + (if name.Some? then |name.value| + 1 else 0) + 2 <= FULL
    ensures var full := Extended(PathTo(n, x), if name.Some? then "/" + name.value else "");
            path == if full == Some("") then Some("/") else full
  {
    RootIsNotNull(n, root);
    hide Tree;
    ghost var extra := if name.Some? then "/" + name.value else "";
    var buf := new char[256];
    var s := 255;
    buf[s] := '\0';
    if name.Some? {
      buf, s := AddName(buf, s, name.value);
    }
    assert Text(buf, s) == extra;
    var node := x;
    var named := true;
    while node != NULL && n[node].nodeid != ROOT_ID && named
      invariant fresh(buf) && Holding(buf, s) && (node == NULL || node in n)
      invariant Climb(n, node) + |Text(buf, s)| + 2 <= FULL
      invariant Extended(PathTo(n, node), Text(buf, s)) == Extended(PathTo(n, x), extra)
      invariant Text(buf, s) == "" || Text(buf, s)[0] == '/'
      invariant !named ==> PathTo(n, node) == None
      decreases if named then 1 else 0, Height(n, node)
    {
      if n[node].name.None? {
        named := false;
      } else {
        ghost var text := Text(buf, s);
        buf, s := AddName(buf, s, n[node].name.value);
        ExtendedTwice(PathTo(n, n[node].parent), "/" + n[node].name.value, text);
        node := n[node].parent;
      }
    }
    assert "" + Text(buf, s) == Text(buf, s) && (Text(buf, s) != "" ==> buf[s] == Text(buf, s)[0]);
    if node == NULL || !named {
      path := None;
    } else if buf[s] != '\0' {
      path := Some(buf[s..buf.Length - 1]);
    } else {
      path := Some("/");
    }
  }

  lemma ExtendedTwice(path: Option<string>, a: string, b: string)
    ensures Extended(Extended(path, a), b) == Extended(path, a + b)
  {
    assert path.Some? ==> path.value + a + b == path.value + (a + b);
  }
}
