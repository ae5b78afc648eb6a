/** Hash tables with chaining: `table` holds the first element of every chain, `next` the element after
  * each. Elements are addresses; NULL ends a chain. */
module HashChains {
  import opened Seqs
  import opened Links

  /** The chain of b: linked from the table on, without repetition, holding exactly the elements that belong
    * to b. */
  ghost predicate Chain(next: map<int, int>, first: int, chain: seq<int>, belongs: map<int, nat>, b: nat) {
    && first == First(chain)
    && (forall i :: 0 <= i < |chain| ==> chain[i] in next && next[chain[i]] == After(chain, i))
    && (forall i, j :: 0 <= i < j < |chain| ==> chain[i] != chain[j])
    && (forall x :: x in chain <==> x in belongs && belongs[x] == b)
  }

  ghost predicate ChainAt(next: map<int, int>, table: seq<int>, chains: seq<seq<int>>, belongs: map<int, nat>, b: nat)
    requires b < |table| == |chains|
  {
    Chain(next, table[b], chains[b], belongs, b)
  }

  /** Every element is in the chain it belongs to, once, and in no other. */
  ghost predicate Index(next: map<int, int>, table: seq<int>, chains: seq<seq<int>>, belongs: map<int, nat>) {
    && |chains| == |table| && NULL !in belongs
    && (forall x :: x in belongs ==> belongs[x] < |table|)
    && (forall b :: 0 <= b < |table| ==> ChainAt(next, table, chains, belongs, b))
  }

  lemma ChainPushed(next: map<int, int>, first: int, chain: seq<int>, belongs: map<int, nat>, x: int, b: nat)
    requires Chain(next, first, chain, belongs, b) && x !in belongs
    ensures Chain(next[x := first], x, [x] + chain, belongs[x := b], b)
  {
    assert x !in chain;
    assert forall i :: 0 <= i < |chain| ==> chain[i] in chain;
  }

  lemma ChainUntouched(next: map<int, int>, next': map<int, int>, first: int, chain: seq<int>, belongs: map<int, nat>,
                       belongs': map<int, nat>, b: nat)
    requires Chain(next, first, chain, belongs, b)
    requires forall x :: x in chain ==> x in next && x in next' && next'[x] == next[x]
    requires forall x :: (x in belongs && belongs[x] == b) <==> (x in belongs' && belongs'[x] == b)
    ensures Chain(next', first, chain, belongs', b)
  {
    assert forall i :: 0 <= i < |chain| ==> chain[i] in chain;
  }

  /** Element x is put first in chain b. */
  lemma Pushed(next: map<int, int>, table: seq<int>, chains: seq<seq<int>>, belongs: map<int, nat>, x: int, b: nat)
    requires Index(next, table, chains, belongs) && x !in belongs && x != NULL && b < |table|
    ensures Index(next[x := table[b]], table[b := x], chains[b := [x] + chains[b]], belongs[x := b])
  {
    var next', table', chains', belongs' :=
      next[x := table[b]], table[b := x], chains[b := [x] + chains[b]], belongs[x := b];
    forall c | 0 <= c < |table|
      ensures ChainAt(next', table', chains', belongs', c)
    {
      assert ChainAt(next, table, chains, belongs, c);
      if c == b {
        ChainPushed(next, table[b], chains[b], belongs, x, b);
      } else {
        InNext(next, table[c], chains[c], belongs, c);
        ChainUntouched(next, next', table[c], chains[c], belongs, belongs', c);
      }
    }
  }

  lemma InNext(next: map<int, int>, first: int, chain: seq<int>, belongs: map<int, nat>, b: nat)
    requires Chain(next, first, chain, belongs, b)
    ensures forall x :: x in chain ==> x in next && x in belongs && belongs[x] == b
  {
  }

  /** The links after the element at position k of a chain is cut out. */
  function CutNext(next: map<int, int>, chain: seq<int>, k: nat): map<int, int>
    requires k < |chain|
  {
    if k == 0 then next else next[chain[k - 1] := After(chain, k)]
  }

  function CutTable(table: seq<int>, chain: seq<int>, b: nat, k: nat): seq<int>
    requires k < |chain| && b < |table|
  {
    if k == 0 then table[b := After(chain, 0)] else table
  }

  lemma CutLinks(next: map<int, int>, chain: seq<int>, k: nat, i: nat)
    requires k < |chain| && i < |chain| - 1
    requires forall j :: 0 <= j < |chain| ==> chain[j] in next && next[chain[j]] == After(chain, j)
    requires forall j, l :: 0 <= j < l < |chain| ==> chain[j] != chain[l]
    ensures Without(chain, k)[i] in CutNext(next, chain, k)
    ensures CutNext(next, chain, k)[Without(chain, k)[i]] == After(Without(chain, k), i)
  {
    var j := if i < k then i else i + 1;
    assert Without(chain, k)[i] == chain[j] && next[chain[j]] == After(chain, j);
  }

  lemma CutMembers(chain: seq<int>, k: nat)
    requires k < |chain| && forall j, l :: 0 <= j < l < |chain| ==> chain[j] != chain[l]
    ensures forall x :: x in Without(chain, k) <==> x in chain && x != chain[k]
  {
    var rest := Without(chain, k);
    forall x | x in chain && x != chain[k]
      ensures x in rest
    {
      var i :| 0 <= i < |chain| && chain[i] == x;
      assert rest[if i < k then i else i - 1] == x;
    }
  }

  lemma ChainCut(next: map<int, int>, first: int, chain: seq<int>, belongs: map<int, nat>, b: nat, k: nat)
    requires Chain(next, first, chain, belongs, b) && k < |chain|
    ensures Chain(CutNext(next, chain, k), if k == 0 then After(chain, 0) else first,
                  Without(chain, k), belongs - {chain[k]}, b)
  {
    var rest, next' := Without(chain, k), CutNext(next, chain, k);
    CutMembers(chain, k);
    hide CutNext;
    forall i | 0 <= i < |rest|
      ensures rest[i] in next' && next'[rest[i]] == After(rest, i)
    {
      CutLinks(next, chain, k, i);
    }
  }

  /** The element at position k of chain b is cut out. */
  lemma Cut(next: map<int, int>, table: seq<int>, chains: seq<seq<int>>, belongs: map<int, nat>, b: nat, k: nat)
    requires Index(next, table, chains, belongs) && b < |table| && k < |chains[b]|
    ensures Index(CutNext(next, chains[b], k), CutTable(table, chains[b], b, k), chains[b := Without(chains[b], k)],
                  belongs - {chains[b][k]})
  {
    var x, belongs' := chains[b][k], belongs - {chains[b][k]};
    var next', table', chains' :=
      CutNext(next, chains[b], k), CutTable(table, chains[b], b, k), chains[b := Without(chains[b], k)];
    assert ChainAt(next, table, chains, belongs, b);
    assert x in chains[b] && (k > 0 ==> chains[b][k - 1] in chains[b]);
    forall c | 0 <= c < |table|
      ensures ChainAt(next', table', chains', belongs', c)
    {
      assert ChainAt(next, table, chains, belongs, c);
      if c == b {
        ChainCut(next, table[b], chains[b], belongs, b, k);
      } else {
        InNext(next, table[c], chains[c], belongs, c);
        ChainUntouched(next, next', table[c], chains[c], belongs, belongs', c);
      }
    }
  }

  /** The link of an element that is in no chain is of no importance. */
  lemma Unimportant(next: map<int, int>, table: seq<int>, chains: seq<seq<int>>, belongs: map<int, nat>, x: int, y: int)
    requires Index(next, table, chains, belongs) && x !in belongs
    ensures Index(next[x := y], table, chains, belongs)
  {
    var next' := next[x := y];
    forall b | 0 <= b < |table|
      ensures ChainAt(next', table, chains, belongs, b)
    {
      assert ChainAt(next, table, chains, belongs, b);
      InNext(next, table[b], chains[b], belongs, b);
      ChainUntouched(next, next', table[b], chains[b], belongs, belongs, b);
    }
  }
}
