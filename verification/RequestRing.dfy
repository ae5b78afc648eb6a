/** The doubly linked rings of requests, which the interruption protocol takes for sequences: a ring is
  * known by the sequence of its nodes, the list head first. */
module RequestRing {
  import opened Seqs

  class ReqNode {
    var next: ReqNode?
    var prev: ReqNode?
  }

  function Succ(i: nat, n: nat): (j: nat)
    requires i < n
    ensures j < n
  {
    if i + 1 == n then 0 else i + 1
  }

  ghost predicate Linked(ring: seq<ReqNode>, i: nat)
    requires i < |ring|
    reads ring
  {
    ring[i].next == ring[Succ(i, |ring|)] && ring[Succ(i, |ring|)].prev == ring[i]
  }

  /** Each node is linked to the one after it, the last to the first, and no node occurs twice. */
  ghost predicate Ring(ring: seq<ReqNode>)
    reads ring
  {
    && (forall i, j :: 0 <= i < j < |ring| ==> ring[i] != ring[j])
    && (forall i :: 0 <= i < |ring| ==> Linked(ring, i))
  }

  /** A request in no list is a ring of its own, so that its deletion does no harm. */
  method InitRing(req: ReqNode)
    modifies req
    ensures Ring([req])
  {
    req.next := req;
    req.prev := req;
  }

  /** Deletion of a node that is not the head; the node itself keeps its links. Nothing comes of the deletion
    * of a node that is linked to itself only. */
  method DeleteReq(req: ReqNode, ghost ring: seq<ReqNode>, ghost k: nat)
    requires Ring(ring) && k < |ring| && ring[k] == req && (k > 0 || |ring| == 1)
    modifies ring
    ensures Ring(if |ring| == 1 then ring else Without(ring, k))
    ensures req.next == old(req.next) && req.prev == old(req.prev)
  {
    assert Linked(ring, k) && (k > 0 ==> Linked(ring, k - 1));
    var prev := req.prev;
    var next := req.next;
    prev.next := next;
    next.prev := prev;
    if |ring| > 1 {
      ghost var now := Without(ring, k);
      forall j | 0 <= j < |now|
        ensures Linked(now, j)
      {
        assert old(Linked(ring, if j < k then j else j + 1));
      }
    }
  }

  /** Insertion before the node at position k; before the head, at position |ring|, means at the end. */
  method AddReq(req: ReqNode, next: ReqNode, ghost ring: seq<ReqNode>, ghost k: nat)
    requires Ring(ring) && 0 < k <= |ring| && next == ring[Succ(k - 1, |ring|)] && req !in ring
    modifies req, ring
    ensures Ring(With(ring, k, req))
  {
    assert Linked(ring, k - 1);
    var prev := next.prev;
    req.next := next;
    req.prev := prev;
    prev.next := req;
    next.prev := req;
    ghost var now := With(ring, k, req);
    forall j | 0 <= j < |now|
      ensures Linked(now, j)
    {
      if j < k - 1 {
        assert old(Linked(ring, j));
      } else if j > k {
        assert old(Linked(ring, j - 1));
      }
    }
  }

  /** A new request, put at the end of the list when it is to be listed. */
  method NewReq(head: ReqNode, listed: bool, ghost ring: seq<ReqNode>) returns (req: ReqNode)
    requires Ring(ring) && ring != [] && ring[0] == head
    modifies ring
    ensures fresh(req)
    ensures if listed then Ring(With(ring, |ring|, req)) else Ring(ring) && Ring([req])
  {
    req := new ReqNode;
    InitRing(req);
    assert forall i :: 0 <= i < |ring| ==> old(Linked(ring, i)) ==> Linked(ring, i);
    if listed {
      AddReq(req, head, ring, |ring|);
    }
  }
}
