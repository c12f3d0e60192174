/** Peers, and the lists of peers that tree nodes and lookups keep: one entry for each peer id. */
module PeerList {
  import opened Options

  datatype Peer = Peer(id: string, endpoint: string, isUp: bool, isResponding: bool)

  /** The position of the first entry for the id, or the length of the list. */
  function IndexOf(ps: seq<Peer>, id: string): (i: nat)
    ensures i <= |ps|
    ensures forall j :: 0 <= j < i ==> ps[j].id != id
    ensures i < |ps| ==> ps[i].id == id
  {
    if ps == [] || ps[0].id == id then 0 else 1 + IndexOf(ps[1..], id)
  }

  predicate Has(ps: seq<Peer>, id: string) {
    exists i :: 0 <= i < |ps| && ps[i].id == id
  }

  /** The entry for the id. */
  function Get(ps: seq<Peer>, id: string): Option<Peer> {
    var i := IndexOf(ps, id);
    if i < |ps| then Some(ps[i]) else None
  }

  /** Insert a peer, or update its entry. */
  function Insert(ps: seq<Peer>, p: Peer): seq<Peer> {
    var i := IndexOf(ps, p.id);
    if i < |ps| then ps[i := p] else ps + [p]
  }

  /** Remove the entry for the id, if there is one. */
  function Delete(ps: seq<Peer>, id: string): seq<Peer> {
    var i := IndexOf(ps, id);
    if i < |ps| then ps[..i] + ps[i + 1..] else ps
  }

  /** Insert the peers one by one. */
  function Offer(acc: seq<Peer>, ps: seq<Peer>): seq<Peer>
    decreases ps
  {
    if ps == [] then acc else Offer(Insert(acc, ps[0]), ps[1..])
  }

  predicate Distinct(ps: seq<Peer>) {
    forall i, j :: 0 <= i < j < |ps| ==> ps[i].id != ps[j].id
  }

  lemma GetIsTheEntry(ps: seq<Peer>, i: nat)
    requires Distinct(ps) && i < |ps|
    ensures Get(ps, ps[i].id) == Some(ps[i])
  {
  }

  /** Inserting changes what is known of one id only, and keeps ids distinct. */
  lemma InsertGets(ps: seq<Peer>, p: Peer)
    requires Distinct(ps)
    ensures Distinct(Insert(ps, p)) && Insert(ps, p) != []
    ensures forall id :: Get(Insert(ps, p), id) == if id == p.id then Some(p) else Get(ps, id)
  {
    var qs := Insert(ps, p);
    assert Distinct(qs);
    forall id
      ensures Get(qs, id) == if id == p.id then Some(p) else Get(ps, id)
    {
      var i, j := IndexOf(ps, id), IndexOf(qs, id);
      var at := IndexOf(ps, p.id);
      assert qs[at] == p;
      if i < |ps| && id != p.id {
        assert qs[i] == ps[i];
      }
      if j < |qs| && id != p.id {
        assert qs[j] == ps[j];
      }
    }
  }

  function Ids(ps: seq<Peer>): (ids: seq<string>)
    ensures |ids| == |ps| && forall i :: 0 <= i < |ids| ==> ids[i] == ps[i].id
  {
    seq(|ps|, i requires 0 <= i < |ps| => ps[i].id)
  }

  /** A known id stays in its place, and a new one comes last. */
  lemma InsertKeepsOrder(ps: seq<Peer>, p: Peer)
    ensures Ids(Insert(ps, p)) == if p.id in Ids(ps) then Ids(ps) else Ids(ps) + [p.id]
  {
    assert forall i :: 0 <= i < |ps| ==> (ps[i].id == Ids(ps)[i]);
  }

  /** Deleting forgets one id only, and keeps ids distinct. */
  lemma DeleteGets(ps: seq<Peer>, gone: string)
    requires Distinct(ps)
    ensures Distinct(Delete(ps, gone))
    ensures forall id :: Get(Delete(ps, gone), id) == if id == gone then None else Get(ps, id)
  {
    var qs := Delete(ps, gone);
    var at := IndexOf(ps, gone);
    assert forall j :: 0 <= j < |qs| ==> qs[j] == if j < at then ps[j] else ps[j + 1];
    assert Distinct(qs);
    forall id
      ensures Get(qs, id) == if id == gone then None else Get(ps, id)
    {
      var i, j := IndexOf(ps, id), IndexOf(qs, id);
      if i < |ps| && id != gone {
        assert qs[if i < at then i else i - 1] == ps[i];
      }
    }
  }

  /** A peer that was not there is gone again, and the order of the others with it. */
  lemma DeleteUndoesInsert(ps: seq<Peer>, p: Peer)
    requires Get(ps, p.id).None?
    ensures Delete(Insert(ps, p), p.id) == ps
  {
    var qs := ps + [p];
    var i := IndexOf(qs, p.id);
    assert qs[|ps|].id == p.id;
    assert i == |ps|;
    assert qs[..i] + qs[i + 1..] == ps;
  }

  /** What was offered is there, each id once, and nothing else is. */
  lemma {:induction false} OfferHas(acc: seq<Peer>, ps: seq<Peer>)
    requires Distinct(acc)
    ensures Distinct(Offer(acc, ps))
    ensures forall id :: Has(Offer(acc, ps), id) <==> Has(acc, id) || Has(ps, id)
    ensures forall p <- Offer(acc, ps) :: p in acc || p in ps
    decreases ps
  {
    if ps == [] {
    } else {
      InsertGets(acc, ps[0]);
      var next := Insert(acc, ps[0]);
      OfferHas(next, ps[1..]);
      assert forall p <- next :: p in acc || p == ps[0];
      forall id
        ensures Has(next, id) <==> Has(acc, id) || id == ps[0].id
      {
        InsertHas(acc, ps[0], id);
      }
      assert ps == [ps[0]] + ps[1..];
      forall id
        ensures Has(ps, id) <==> id == ps[0].id || Has(ps[1..], id)
      {
        HasParts([ps[0]], ps[1..], id);
        assert [ps[0]][0] == ps[0];
      }
    }
  }

  lemma InsertHas(ps: seq<Peer>, p: Peer, id: string)
    ensures Has(Insert(ps, p), id) <==> Has(ps, id) || id == p.id
  {
    var qs, at := Insert(ps, p), IndexOf(ps, p.id);
    assert qs[at] == p;
    if Has(ps, id) && id != p.id {
      var i :| 0 <= i < |ps| && ps[i].id == id;
      assert qs[i] == ps[i];
    }
    if Has(qs, id) && id != p.id {
      var i :| 0 <= i < |qs| && qs[i].id == id;
      assert qs[i] == ps[i];
    }
  }

  lemma HasParts(a: seq<Peer>, b: seq<Peer>, id: string)
    ensures Has(a + b, id) <==> Has(a, id) || Has(b, id)
  {
    if Has(a, id) {
      var i :| 0 <= i < |a| && a[i].id == id;
      assert (a + b)[i] == a[i];
    }
    if Has(b, id) {
      var i :| 0 <= i < |b| && b[i].id == id;
      assert (a + b)[|a| + i] == b[i];
    }
  }

  lemma HasIsMembership(ps: seq<Peer>, id: string)
    ensures Has(ps, id) <==> exists p <- ps :: p.id == id
  {
    if Has(ps, id) {
      var i :| 0 <= i < |ps| && ps[i].id == id;
      assert ps[i] in ps;
    }
  }

  lemma {:induction false} OfferTwice(acc: seq<Peer>, a: seq<Peer>, b: seq<Peer>)
    ensures Offer(acc, a + b) == Offer(Offer(acc, a), b)
    decreases a
  {
    if a == [] {
      assert a + b == b;
    } else {
      assert (a + b)[0] == a[0] && (a + b)[1..] == a[1..] + b;
      OfferTwice(Insert(acc, a[0]), a[1..], b);
    }
  }

  /** Ids that are not offered keep their entry. */
  lemma {:induction false} OfferKeeps(acc: seq<Peer>, ps: seq<Peer>, id: string)
    requires Distinct(acc) && !Has(ps, id)
    ensures Get(Offer(acc, ps), id) == Get(acc, id)
    decreases ps
  {
    if ps == [] {
    } else {
      InsertGets(acc, ps[0]);
      assert forall j :: 0 <= j < |ps| - 1 ==> ps[1..][j] == ps[j + 1];
      OfferKeeps(Insert(acc, ps[0]), ps[1..], id);
    }
  }

  /** Of several versions of a peer the last one offered stays. */
  lemma {:induction false} OfferLatest(acc: seq<Peer>, ps: seq<Peer>, i: nat)
    requires Distinct(acc) && i < |ps| && forall j :: i < j < |ps| ==> ps[j].id != ps[i].id
    ensures Get(Offer(acc, ps), ps[i].id) == Some(ps[i])
    decreases ps
  {
    InsertGets(acc, ps[0]);
    if i == 0 {
      assert forall j :: 0 <= j < |ps| - 1 ==> ps[1..][j] == ps[j + 1];
      OfferKeeps(Insert(acc, ps[0]), ps[1..], ps[0].id);
    } else {
      OfferLatest(Insert(acc, ps[0]), ps[1..], i - 1);
    }
  }

  /** A list of peers that are offered takes over from what was there. */
  lemma OfferTakesOver(acc: seq<Peer>, ps: seq<Peer>, id: string)
    requires Distinct(acc) && Distinct(ps)
    ensures Get(Offer(acc, ps), id) == if Get(ps, id).Some? then Get(ps, id) else Get(acc, id)
  {
    var i := IndexOf(ps, id);
    if i < |ps| {
      OfferLatest(acc, ps, i);
    } else {
      OfferKeeps(acc, ps, id);
    }
  }

  /** `cb_peer_list_insert`: look for the id entry by entry, and update that entry or append a new one. */
  method InsertPeer(peers: seq<Peer>, p: Peer) returns (now: seq<Peer>)
    ensures now == Insert(peers, p)
  {
    var i := 0;
    while i < |peers|
      invariant i <= |peers|
      invariant forall j :: 0 <= j < i ==> peers[j].id != p.id
    {
      if peers[i].id == p.id {
        return peers[i := p];
      }
      i := i + 1;
    }
    now := peers + [p];
  }

  /** `cb_peer_subscription_tree_collector_offer`. */
  method OfferPeers(collected: seq<Peer>, peers: seq<Peer>) returns (now: seq<Peer>)
    ensures now == Offer(collected, peers)
  {
    now := collected;
    var left := peers;
    while left != []
      invariant Offer(now, left) == Offer(collected, peers)
      decreases |left|
    {
      now := InsertPeer(now, left[0]);
      left := left[1..];
    }
  }
}
