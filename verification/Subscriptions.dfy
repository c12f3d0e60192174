/** The subscription tree as a whole, over runs of adds and removes, against a flat registry. */
module Subscriptions {
  import opened Options
  import opened PeerList
  import opened Trie
  import opened Routing
  import opened BindingKey

  /** Keys with parts have one at least. */
  predicate ValidKey(key: Key) {
    key.Some? ==> key.value != []
  }

  datatype Tree = Tree(root: Node, matchingAll: seq<Peer>)

  function EmptyTree(): Tree {
    Tree(Fresh("", 0), [])
  }

  function Subscribe(t: Tree, p: Peer, key: Key): Tree
    requires ValidKey(key)
  {
    if IsEmpty(key) then t.(matchingAll := Insert(t.matchingAll, p)) else t.(root := Add(t.root, p, key.value, 0))
  }

  function Unsubscribe(t: Tree, id: string, key: Key): Tree
    requires ValidKey(key)
  {
    if IsEmpty(key) then t.(matchingAll := Delete(t.matchingAll, id)) else t.(root := Remove(t.root, id, key.value))
  }

  /** `cb_peer_subscription_tree_get_peers`. */
  function Lookup(t: Tree, key: Key): seq<Peer>
    requires ValidKey(key)
  {
    Offer(Offer([], t.matchingAll), if IsEmpty(key) then All(t.root) else Offered(t.root, key.value[0], key.value))
  }

  // ----- the flat registry -----

  /** A subscription of a peer; `[]` stands for the empty key in both its forms. */
  datatype Sub = Sub(key: Path, id: string)

  type Registry = map<Sub, Peer>

  function Flat(key: Key): Path {
    if IsEmpty(key) then [] else key.value
  }

  /** The live keys other than the empty one. */
  ghost function Live(subs: Registry): iset<Path> {
    iset s <- subs | s.key != [] :: s.key
  }

  /** The tree stores the registry: at every key the same peers in the same versions. */
  ghost predicate Agrees(t: Tree, subs: Registry) {
    && t.root.peers == []
    && forall k: Path, id: string :: Get(StoredAt(t, k), id) == if Sub(k, id) in subs then Some(subs[Sub(k, id)]) else None
  }

  function StoredAt(t: Tree, k: Path): seq<Peer> {
    if k == [] then t.matchingAll else PeersAt(t.root, k)
  }

  predicate Sound(t: Tree) {
    Healthy(t.root, 0) && Distinct(t.matchingAll)
  }

  // ----- runs -----

  datatype Op = Subscribing(p: Peer, key: Key) | Unsubscribing(id: string, key: Key)

  /** What the code needs of its callers: parts in the keys, no addition along a child that is not in the last bucket, and no
      removal along a wildcard that the tree does not have, out of a full bucket, or of all there is in a later bucket. */
  predicate Allowed(t: Tree, op: Op) {
    && ValidKey(op.key)
    && (!IsEmpty(op.key) ==> match op
        case Subscribing(_, key) => InLastBuckets(t.root, key.value)
        case Unsubscribing(id, key) => Walkable(t.root, key.value) && SparesBuckets(t.root, id, key.value))
  }

  function Apply(t: Tree, op: Op): Tree
    requires ValidKey(op.key)
  {
    match op
    case Subscribing(p, key) => Subscribe(t, p, key)
    case Unsubscribing(id, key) => Unsubscribe(t, id, key)
  }

  function Register(subs: Registry, op: Op): Registry {
    match op
    case Subscribing(p, key) => subs[Sub(Flat(key), p.id) := p]
    case Unsubscribing(id, key) => subs - {Sub(Flat(key), id)}
  }

  predicate AllowedRun(t: Tree, ops: seq<Op>)
    decreases ops
  {
    ops == [] || (Allowed(t, ops[0]) && AllowedRun(Apply(t, ops[0]), ops[1..]))
  }

  function Run(t: Tree, ops: seq<Op>): Tree
    requires AllowedRun(t, ops)
    decreases ops
  {
    if ops == [] then t else Run(Apply(t, ops[0]), ops[1..])
  }

  function Registered(subs: Registry, ops: seq<Op>): Registry
    decreases ops
  {
    if ops == [] then subs else Registered(Register(subs, ops[0]), ops[1..])
  }

  lemma {:induction false} StoredIsDistinct(n: Node, depth: nat, k: Path)
    requires Healthy(n, depth)
    ensures Distinct(PeersAt(n, k))
    decreases |k|
  {
    if k == [] {
    } else if Child(n, k[0]).Some? {
      ChildIsHealthy(n, depth, k[0]);
      StoredIsDistinct(Child(n, k[0]).value, depth + 1, k[1..]);
    }
  }

  lemma NothingAtTheRoot(n: Node, p: Peer, k: Path, id: string)
    requires k != []
    ensures Add(n, p, k, 0).peers == n.peers && Remove(n, id, k).peers == n.peers
  {
  }

  /** One operation keeps the invariant and the agreement with the registry. */
  lemma StepAgrees(t: Tree, subs: Registry, op: Op)
    requires Sound(t) && Agrees(t, subs) && Allowed(t, op)
    ensures Sound(Apply(t, op)) && Agrees(Apply(t, op), Register(subs, op))
  {
    hide Healthy, Get, Add, Remove, Distinct, InLastBuckets, Walkable, SparesBuckets;
    var now, key, here := Apply(t, op), op.key, Flat(op.key);
    StoredIsDistinct(t.root, 0, here);
    if op.Subscribing? {
      InsertGets(StoredAt(t, here), op.p);
      if !IsEmpty(key) {
        AddIsHealthy(t.root, op.p, here, 0);
        NothingAtTheRoot(t.root, op.p, here, op.p.id);
        forall k: Path
          ensures PeersAt(now.root, k) == if k == here then Insert(PeersAt(t.root, k), op.p) else PeersAt(t.root, k)
        {
          AddStores(t.root, op.p, here, 0, k);
        }
      }
    } else {
      DeleteGets(StoredAt(t, here), op.id);
      if !IsEmpty(key) {
        RemoveIsHealthy(t.root, op.id, here, 0);
        NothingAtTheRoot(t.root, Peer("", "", false, false), here, op.id);
        forall k: Path
          ensures PeersAt(now.root, k) == if k == here then Delete(PeersAt(t.root, k), op.id) else PeersAt(t.root, k)
        {
          RemoveStores(t.root, op.id, here, 0, k);
        }
      }
    }
  }

  /** After any run the tree is sound and stores exactly the registry of the run. */
  lemma {:induction false} RunAgrees(t: Tree, subs: Registry, ops: seq<Op>)
    requires Sound(t) && Agrees(t, subs) && AllowedRun(t, ops)
    ensures Sound(Run(t, ops)) && Agrees(Run(t, ops), Registered(subs, ops))
    decreases ops
  {
    if ops == [] {
    } else {
      hide Sound, Agrees, Apply, Register, Allowed;
      StepAgrees(t, subs, ops[0]);
      RunAgrees(Apply(t, ops[0]), Register(subs, ops[0]), ops[1..]);
    }
  }

  lemma EmptyAgrees()
    ensures Sound(EmptyTree()) && Agrees(EmptyTree(), map[])
  {
  }

  /** Adding a subscription leaves the tree in agreement with the registry if and only if it is allowed, or there already. */
  lemma AddingAgreesIff(t: Tree, subs: Registry, p: Peer, key: Key)
    requires Sound(t) && Agrees(t, subs) && ValidKey(key)
    ensures Agrees(Subscribe(t, p, key), Register(subs, Subscribing(p, key))) <==>
      Allowed(t, Subscribing(p, key)) || (Sub(Flat(key), p.id) in subs && subs[Sub(Flat(key), p.id)] == p)
  {
    hide Healthy, Add, InLastBuckets, Distinct;
    var op, k := Subscribing(p, key), Flat(key);
    if Allowed(t, op) {
      StepAgrees(t, subs, op);
    } else {
      NothingAtTheRoot(t.root, p, k, p.id);
      forall other: Path
        ensures StoredAt(Subscribe(t, p, key), other) == StoredAt(t, other)
      {
        AddStores(t.root, p, k, 0, other);
      }
      SameStored(t, Subscribe(t, p, key), subs, Sub(k, p.id), p);
    }
  }

  lemma SameStored(t: Tree, now: Tree, subs: Registry, s: Sub, p: Peer)
    requires Agrees(t, subs) && now.root.peers == t.root.peers && forall k: Path :: StoredAt(now, k) == StoredAt(t, k)
    ensures Agrees(now, subs[s := p]) <==> s in subs && subs[s] == p
  {
    hide Get, StoredAt, Agrees;
    AgreesAt(t, subs, s);
    if s in subs && subs[s] == p {
      assert subs[s := p] == subs;
      SameAgrees(t, now, subs);
    } else if Agrees(now, subs[s := p]) {
      AgreesAt(now, subs[s := p], s);
    }
  }

  lemma AgreesAt(t: Tree, subs: Registry, s: Sub)
    requires Agrees(t, subs)
    ensures Get(StoredAt(t, s.key), s.id) == if s in subs then Some(subs[s]) else None
  {
    assert s == Sub(s.key, s.id);
  }

  lemma SameAgrees(t: Tree, now: Tree, subs: Registry)
    requires Agrees(t, subs) && now.root.peers == t.root.peers && forall k: Path :: StoredAt(now, k) == StoredAt(t, k)
    ensures Agrees(now, subs)
  {
  }

  /** A removal of a subscription that is live is allowed if and only if it spares the buckets. */
  lemma LiveRemovalIsAllowed(t: Tree, subs: Registry, id: string, key: Key)
    requires Agrees(t, subs) && ValidKey(key) && exists s <- subs :: s.key == Flat(key)
    ensures Allowed(t, Unsubscribing(id, key)) <==> IsEmpty(key) || SparesBuckets(t.root, id, key.value)
  {
    if !IsEmpty(key) {
      var s :| s in subs && s.key == Flat(key);
      assert Get(StoredAt(t, s.key), s.id) == Some(subs[Sub(s.key, s.id)]);
      StoredIsWalkable(t.root, key.value);
    }
  }

  /** A removal is one the code survives if and only if the tree has the wildcards that it walks to and it spares the buckets. */
  lemma RemovalAllowedIff(t: Tree, subs: Registry, id: string, key: Key)
    requires Sound(t) && Agrees(t, subs) && ValidKey(key)
    ensures Allowed(t, Unsubscribing(id, key)) <==>
      IsEmpty(key) || (WildsKnown(Live(subs), key.value) && SparesBuckets(t.root, id, key.value))
  {
    if !IsEmpty(key) {
      LiveIsLive(t, subs);
      WalkableIffWildsKnown(t.root, 0, key.value);
    }
  }

  /** Removing a wildcard key that no subscription has is not allowed. */
  lemma UnknownWildcardRemoval(id: string)
    ensures !Allowed(EmptyTree(), Unsubscribing(id, Some(["*"])))
  {
    EmptyAgrees();
    RemovalAllowedIff(EmptyTree(), map[], id, Some(["*"]));
    assert !WildKnownAt(Live(map[]), ["*"], 0);
  }

  /** Adding a fresh subscription and removing it again restores the tree, node by node. */
  lemma FreshSubscriptionUndone(t: Tree, subs: Registry, p: Peer, key: Key)
    requires Sound(t) && Agrees(t, subs) && Sub(Flat(key), p.id) !in subs
    requires Allowed(t, Subscribing(p, key)) && Allowed(Subscribe(t, p, key), Unsubscribing(p.id, key))
    ensures Unsubscribe(Subscribe(t, p, key), p.id, key) == t
  {
    assert Get(StoredAt(t, Flat(key)), p.id).None?;
    if IsEmpty(key) {
      DeleteUndoesInsert(t.matchingAll, p);
    } else {
      RemoveUndoesAdd(t.root, p, key.value, 0);
    }
  }

  // ----- runs that need not know the tree -----

  /** What the registry can tell: no prefix of the key is followed by enough fragments to fill a bucket, and a removal goes along
      wildcards that subscriptions have. */
  ghost predicate Plain(subs: Registry, op: Op) {
    && ValidKey(op.key)
    && (!IsEmpty(op.key) ==>
      Uncrowded(Live(subs), op.key.value) && (op.Unsubscribing? ==> WildsKnown(Live(subs), op.key.value)))
  }

  ghost predicate PlainRun(subs: Registry, ops: seq<Op>)
    decreases ops
  {
    ops == [] || (Plain(subs, ops[0]) && PlainRun(Register(subs, ops[0]), ops[1..]))
  }

  lemma PlainIsAllowed(t: Tree, subs: Registry, op: Op)
    requires Sound(t) && Agrees(t, subs) && Plain(subs, op)
    ensures Allowed(t, op)
  {
    if !IsEmpty(op.key) {
      hide Healthy, Uncrowded, WildsKnown, Agrees, LiveKeys, Live;
      LiveIsLive(t, subs);
      UncrowdedIsFree(t.root, 0, op.key.value, if op.Unsubscribing? then op.id else "");
      WalkableIffWildsKnown(t.root, 0, op.key.value);
    }
  }

  /** A run that is plain for the registry is allowed on the tree. */
  lemma {:induction false} PlainRunIsAllowed(t: Tree, subs: Registry, ops: seq<Op>)
    requires Sound(t) && Agrees(t, subs) && PlainRun(subs, ops)
    ensures AllowedRun(t, ops)
    decreases ops
  {
    if ops == [] {
    } else {
      hide Sound, Agrees, Apply, Register, Allowed, Plain;
      PlainIsAllowed(t, subs, ops[0]);
      StepAgrees(t, subs, ops[0]);
      PlainRunIsAllowed(Apply(t, ops[0]), Register(subs, ops[0]), ops[1..]);
    }
  }

  // ----- lookups -----

  /** The subscription is one that a lookup of `q` returns. */
  ghost predicate Routed(subs: Registry, s: Sub, q: Path) {
    s in subs && (s.key == [] || Routes(Live(subs), s.key, q))
  }

  lemma LiveIsLive(t: Tree, subs: Registry)
    requires Agrees(t, subs)
    ensures LiveKeys(t.root) == Live(subs)
  {
    forall k: Path
      ensures k in LiveKeys(t.root) <==> k in Live(subs)
    {
      if k in LiveKeys(t.root) {
        assert k != [];
        var p := StoredAt(t, k)[0];
        assert Get(StoredAt(t, k), p.id).Some?;
        assert Sub(k, p.id) in subs;
      }
      if k in Live(subs) {
        var s :| s in subs && s.key == k && s.key != [];
        assert Get(StoredAt(t, k), s.id) == Some(subs[Sub(k, s.id)]);
      }
    }
  }

  /** What is stored at a key is a subscription, and the other way around. */
  lemma StoredIsSub(t: Tree, subs: Registry, k: Path, p: Peer)
    requires Sound(t) && Agrees(t, subs)
    ensures p in StoredAt(t, k) <==> Sub(k, p.id) in subs && subs[Sub(k, p.id)] == p
  {
    StoredIsDistinct(t.root, 0, k);
    var ps := StoredAt(t, k);
    if p in ps {
      var i :| 0 <= i < |ps| && ps[i] == p;
      GetIsTheEntry(ps, i);
    }
    assert Get(ps, p.id) == if Sub(k, p.id) in subs then Some(subs[Sub(k, p.id)]) else None;
  }

  /** The peers a lookup goes through are those of the routed subscriptions. */
  lemma OfferedIsRouted(t: Tree, subs: Registry, q: Path, p: Peer)
    requires Sound(t) && Agrees(t, subs) && q != [] && WildsLast(q[0], q)
    ensures p in t.matchingAll || p in Offered(t.root, q[0], q) <==> IsRouted(subs, p, q)
  {
    hide Healthy, WildsLast, Routes;
    LiveIsLive(t, subs);
    if p in t.matchingAll {
      StoredIsSub(t, subs, [], p);
      assert Routed(subs, Sub([], p.id), q);
    } else if p in Offered(t.root, q[0], q) {
      var k := OfferedLeads(t.root, 0, q[0], q, p);
      LeadsIsRoutes(t.root, 0, k, q);
      StoredIsSub(t, subs, k, p);
      assert Routed(subs, Sub(k, p.id), q);
    }
    if s :| Routed(subs, s, q) && subs[s] == p {
      assert Get(StoredAt(t, s.key), s.id) == Some(subs[Sub(s.key, s.id)]);
      if s.key != [] {
        LeadsIsRoutes(t.root, 0, s.key, q);
        LeadsOffered(t.root, q[0], q, s.key, p);
      }
    }
  }

  /** A lookup answers right: each peer id once, the ids of exactly the routed subscriptions, and for each of them a version
      of the peer that such a subscription holds. */
  ghost predicate Answers(subs: Registry, q: Path, result: seq<Peer>) {
    && Distinct(result)
    && (forall id :: Has(result, id) <==> exists s :: Routed(subs, s, q) && s.id == id)
    && (forall p <- result :: IsRouted(subs, p, q))
  }

  /** A routed subscription holds this version of the peer. */
  ghost predicate IsRouted(subs: Registry, p: Peer, q: Path) {
    exists s :: Routed(subs, s, q) && subs[s] == p
  }

  lemma LookupOffers(t: Tree, q: Path)
    requires Distinct(t.matchingAll) && q != [] && q != ["#"]
    ensures Distinct(Lookup(t, Some(q)))
    ensures forall id :: Has(Lookup(t, Some(q)), id) <==> Has(t.matchingAll + Offered(t.root, q[0], q), id)
    ensures forall p <- Lookup(t, Some(q)) :: p in t.matchingAll || p in Offered(t.root, q[0], q)
  {
    var all, below := t.matchingAll, Offered(t.root, q[0], q);
    OfferTwice([], all, below);
    OfferHas([], all + below);
  }

  /** A tree that stores the registry answers every query whose wildcards come last. */
  lemma LookupAnswers(t: Tree, subs: Registry, q: Path)
    requires Sound(t) && Agrees(t, subs) && q != [] && q != ["#"] && WildsLast(q[0], q)
    ensures Answers(subs, q, Lookup(t, Some(q)))
  {
    hide Routed, IsRouted, Offered, Lookup, WildsLast, Agrees, Has;
    var result, below := Lookup(t, Some(q)), t.matchingAll + Offered(t.root, q[0], q);
    LookupOffers(t, q);
    forall p: Peer
      ensures p in below <==> IsRouted(subs, p, q)
    {
      OfferedIsRouted(t, subs, q, p);
    }
    forall id
      ensures Has(result, id) <==> exists s :: Routed(subs, s, q) && s.id == id
    {
      HasIsMembership(below, id);
      if p :| p in below && p.id == id {
        var s := RoutedPeer(t, subs, p, q);
      }
      if s :| Routed(subs, s, q) && s.id == id {
        RoutedIsStored(t, subs, s, q);
        assert subs[s] in below;
      }
    }
  }

  /** The registry holds each peer under its own id. */
  lemma RoutedIsStored(t: Tree, subs: Registry, s: Sub, q: Path)
    requires Agrees(t, subs) && Routed(subs, s, q)
    ensures s in subs && subs[s].id == s.id && IsRouted(subs, subs[s], q)
  {
    assert Get(StoredAt(t, s.key), s.id) == Some(subs[Sub(s.key, s.id)]);
  }

  lemma RoutedPeer(t: Tree, subs: Registry, p: Peer, q: Path) returns (s: Sub)
    requires Agrees(t, subs) && IsRouted(subs, p, q)
    ensures Routed(subs, s, q) && s.id == p.id
  {
    s :| Routed(subs, s, q) && subs[s] == p;
    RoutedIsStored(t, subs, s, q);
  }

  /** A lookup with an empty key returns every subscribed peer, each id once. */
  lemma EmptyLookupAnswers(t: Tree, subs: Registry, key: Key)
    requires Sound(t) && Agrees(t, subs) && IsEmpty(key)
    ensures Distinct(Lookup(t, key))
    ensures forall id :: Has(Lookup(t, key), id) <==> exists s :: s in subs && s.id == id
  {
    hide Healthy, Get;
    var below := t.matchingAll + All(t.root);
    OfferTwice([], t.matchingAll, All(t.root));
    OfferHas([], below);
    forall id
      ensures Has(below, id) <==> exists s :: s in subs && s.id == id
    {
      HasIsMembership(below, id);
      if p :| p in below && p.id == id {
        if p in t.matchingAll {
          StoredIsSub(t, subs, [], p);
        } else {
          var k := AllIsStored(t.root, 0, p);
          StoredIsSub(t, subs, k, p);
        }
      }
      if s :| s in subs && s.id == id {
        assert Get(StoredAt(t, s.key), s.id) == Some(subs[Sub(s.key, s.id)]);
        GetIsIn(StoredAt(t, s.key), s.id);
        if s.key != [] {
          StoredIsInAll(t.root, s.key, subs[s]);
        }
      }
    }
  }

  lemma GetIsIn(ps: seq<Peer>, id: string)
    requires Get(ps, id).Some?
    ensures Get(ps, id).value in ps && Get(ps, id).value.id == id
  {
  }

  /** After every run, a lookup answers every query whose wildcards come last. */
  lemma RunAnswers(ops: seq<Op>, q: Path)
    requires AllowedRun(EmptyTree(), ops) && q != [] && q != ["#"] && WildsLast(q[0], q)
    ensures Answers(Registered(map[], ops), q, Lookup(Run(EmptyTree(), ops), Some(q)))
  {
    EmptyAgrees();
    RunAgrees(EmptyTree(), map[], ops);
    LookupAnswers(Run(EmptyTree(), ops), Registered(map[], ops), q);
  }

  /** Queries without wildcards have none but the last. */
  lemma {:induction false} WildcardFree(before: string, q: Path)
    requires !IsWild(before) && forall f <- q :: !IsWild(f)
    ensures WildsLast(before, q)
    decreases |q|
  {
    if q == [] {
    } else {
      assert q[0] in q;
      WildcardFree(q[0], q[1..]);
    }
  }

  // ----- what the answer is worth -----

  /** The meaning of a subscription key: `*` stands for one fragment and `#` for everything from there on. */
  predicate TrulyMatches(k: Path, q: Path)
    decreases |k|
  {
    if k == [] || q == [] then k == q
    else k[0] == "#" || ((k[0] == "*" || k[0] == q[0]) && TrulyMatches(k[1..], q[1..]))
  }

  /** The fragment of `k` that decides a true match: the first `#`, or the end. */
  lemma {:induction false} TrueMatchEnds(k: Path, q: Path) returns (j: nat)
    requires TrulyMatches(k, q)
    ensures j <= |k| && j <= |q| && Matches(k[..j], q[..j])
    ensures j == |k| == |q| || (j < |k| && j < |q| && k[j] == "#")
    decreases |k|
  {
    j := 0;
    if k == [] || k[0] == "#" {
    } else {
      var i := TrueMatchEnds(k[1..], q[1..]);
      j := i + 1;
      assert k[..j][1..] == k[1..][..i] && q[..j][1..] == q[1..][..i];
      MatchesStep(k[..j], q[..j]);
    }
  }

  /** No subscription that truly matches is ever missed. */
  lemma TrueMatchesAreRouted(subs: Registry, s: Sub, q: Path)
    requires s in subs && (s.key == [] || TrulyMatches(s.key, q))
    ensures Routed(subs, s, q)
  {
    if s.key != [] {
      var k := s.key;
      var j := TrueMatchEnds(k, q);
      if j < |k| {
        assert k in Live(subs) && k[..|k[..j]|] == k[..j];
        assert IsSharpPoint(Live(subs), k, q, j);
      } else {
        assert k[..j] == k && q[..j] == q;
      }
    }
  }

  lemma {:induction false} MatchIsTrue(k: Path, q: Path)
    requires Matches(k, q)
    ensures TrulyMatches(k, q)
    decreases |k|
  {
    if k == [] {
    } else {
      MatchesStep(k, q);
      MatchIsTrue(k[1..], q[1..]);
    }
  }

  // ----- when nothing is returned too much -----

  /** Position `j` is the first `#` of the key. */
  predicate IsFirstSharp(k: Path, j: int) {
    0 <= j < |k| && k[j] == "#" && "#" !in k[..j]
  }

  /** Where a live key has its first `#`, every live key that starts alike has `#` too. */
  ghost predicate SharpsAlone(live: iset<Path>) {
    forall k, w, j :: k in live && w in live && IsFirstSharp(k, j) && k[..j] <= w ==> j < |w| && w[j] == "#"
  }

  predicate WildFree(q: Path) {
    forall i :: 0 <= i < |q| ==> !IsWild(q[i])
  }

  /** What is routed truly matches, for every query, or for every one without wildcards. */
  ghost predicate AnswersTruly(subs: Registry, wildFree: bool) {
    forall s, q :: (wildFree ==> WildFree(q)) && Routed(subs, s, q) ==> s.key == [] || TrulyMatches(s.key, q)
  }

  /** A key that matches a prefix without `#` truly matches if and only if the rests do. */
  lemma {:induction false} TrueMatchParts(k: Path, q: Path, j: nat)
    requires j <= |k| && j <= |q| && Matches(k[..j], q[..j]) && "#" !in k[..j]
    ensures TrulyMatches(k, q) <==> TrulyMatches(k[j..], q[j..])
    decreases j
  {
    if j == 0 {
      assert k[0..] == k && q[0..] == q;
    } else {
      assert k[..j][0] == k[0] && k[0] in k[..j];
      MatchesStep(k[..j], q[..j]);
      assert k[..j][1..] == k[1..][..j - 1] && q[..j][1..] == q[1..][..j - 1];
      TrueMatchParts(k[1..], q[1..], j - 1);
      assert k[1..][j - 1..] == k[j..] && q[1..][j - 1..] == q[j..];
    }
  }

  /** A key that matches a prefix with `#` in it truly matches. */
  lemma {:induction false} SharpInPrefix(k: Path, q: Path, j: nat)
    requires j <= |k| && j <= |q| && Matches(k[..j], q[..j]) && "#" in k[..j]
    ensures TrulyMatches(k, q)
    decreases j
  {
    if k[0] == "#" {
    } else {
      assert k[..j][0] == k[0];
      MatchesStep(k[..j], q[..j]);
      assert k[..j][1..] == k[1..][..j - 1] && q[..j][1..] == q[1..][..j - 1];
      SharpInPrefix(k[1..], q[1..], j - 1);
    }
  }

  /** Where sharps are alone, a key that a sharp point leads to truly matches. */
  lemma SharpPointIsTrue(live: iset<Path>, w: Path, q: Path, j: nat)
    requires SharpsAlone(live) && w in live && IsSharpPoint(live, w, q, j)
    ensures TrulyMatches(w, q)
  {
    hide Matches, TrulyMatches, SharpsAlone;
    var k :| k in live && |w[..j]| < |k| && k[..|w[..j]|] == w[..j] && k[|w[..j]|] == "#";
    if "#" in w[..j] {
      SharpInPrefix(w, q, j);
    } else {
      assert IsFirstSharp(k, j) && k[..j] <= w;
      SharpAlone(live, k, w, j);
      TrueMatchParts(w, q, j);
      SharpMatchesAll(w[j..], q[j..]);
    }
  }

  lemma SharpAlone(live: iset<Path>, k: Path, w: Path, j: int)
    requires SharpsAlone(live) && k in live && w in live && IsFirstSharp(k, j) && k[..j] <= w
    ensures j < |w| && w[j] == "#"
  {
  }

  lemma SharpMatchesAll(k: Path, q: Path)
    requires k != [] && q != [] && k[0] == "#"
    ensures TrulyMatches(k, q)
  {
  }

  /** Where sharps are alone, a routed subscription truly matches. */
  lemma RoutedIsTrueWhereAlone(subs: Registry, s: Sub, q: Path)
    requires SharpsAlone(Live(subs)) && Routed(subs, s, q) && s.key != []
    ensures TrulyMatches(s.key, q)
  {
    hide Matches, TrulyMatches, SharpsAlone, IsSharpPoint;
    assert s.key in Live(subs);
    if Matches(s.key, q) {
      MatchIsTrue(s.key, q);
    } else {
      var j :| IsSharpPoint(Live(subs), s.key, q, j);
      SharpPointsAreIndices(Live(subs), s.key, q, j);
      SharpPointIsTrue(Live(subs), s.key, q, j);
    }
  }

  /** A literal fragment in the place of each `*`. */
  function Literals(k: Path): (q: Path)
    ensures |q| == |k| && forall i :: 0 <= i < |q| ==> q[i] == if k[i] == "*" then "a" else k[i]
  {
    seq(|k|, i requires 0 <= i < |k| => if k[i] == "*" then "a" else k[i])
  }

  /** Fragments, one at least, that a key not starting with `#` does not match. */
  function Mismatch(k: Path): (q: Path)
    requires k == [] || k[0] != "#"
    ensures q != [] && WildFree(q) && !TrulyMatches(k, q)
  {
    if k == [] then ["a"]
    else if k[0] != "*" then (if k[0] == "a" then ["b"] else ["a"])
    else if |k| == 1 then assert !TrulyMatches(["*"], ["a", "a"]) by { StarIsOne(); } assert k == ["*"]; ["a", "a"]
    else ["a"]
  }

  lemma StarIsOne()
    ensures !TrulyMatches(["*"], ["a", "a"])
  {
    assert ["*"][1..] == [] && ["a", "a"][1..] == ["a"];
  }

  /** A query that goes through the prefix, and is wrong from there on. */
  lemma OverOfferedQuery(k: Path, w: Path, j: int) returns (q: Path)
    requires IsFirstSharp(k, j) && k[..j] <= w && (j == |w| || w[j] != "#")
    ensures WildFree(q) && !TrulyMatches(w, q) && j < |q| && Matches(w[..j], q[..j])
  {
    hide TrulyMatches;
    var head, tail := Literals(k[..j]), Mismatch(w[j..]);
    q := head + tail;
    assert w[..j] == k[..j] && q[..j] == head && q[j..] == tail;
    assert forall i :: 0 <= i < j ==> k[..j][i] in k[..j];
    TrueMatchParts(w, q, j);
  }

  /** Where sharps are not alone, some query is routed to a subscription that does not truly match it. */
  lemma OverOffered(subs: Registry, k: Path, s: Sub, j: int) returns (q: Path)
    requires k in Live(subs) && s in subs && s.key != [] && IsFirstSharp(k, j) && k[..j] <= s.key
    requires j == |s.key| || s.key[j] != "#"
    ensures WildFree(q) && Routed(subs, s, q) && !TrulyMatches(s.key, q)
  {
    hide TrulyMatches, Matches, Live;
    var w := s.key;
    q := OverOfferedQuery(k, w, j);
    assert w[..j] == k[..j];
    assert k[..|w[..j]|] == w[..j] && k[|w[..j]|] == "#";
    assert IsSharpPoint(Live(subs), w, q, j);
  }

  /** Nothing is offered that does not truly match if and only if sharps are alone, whether queries may have wildcards or not. */
  lemma TrulyIffSharpsAlone(subs: Registry, wildFree: bool)
    ensures AnswersTruly(subs, wildFree) <==> SharpsAlone(Live(subs))
  {
    if SharpsAlone(Live(subs)) {
      forall s, q | Routed(subs, s, q) && s.key != []
        ensures TrulyMatches(s.key, q)
      {
        RoutedIsTrueWhereAlone(subs, s, q);
      }
    } else {
      var k, w, j :| k in Live(subs) && w in Live(subs) && IsFirstSharp(k, j) && k[..j] <= w && !(j < |w| && w[j] == "#");
      var s :| s in subs && s.key == w && s.key != [];
      var q := OverOffered(subs, k, s, j);
    }
  }

  /** A subscription to `x.y` gets a message for `x.z` when some peer has subscribed to `x.#`. */
  lemma SharpOffersTooMuch()
    ensures var subs := map[Sub(["x", "#"], "p") := Peer("p", "", true, true), Sub(["x", "y"], "r") := Peer("r", "", true, true)];
      Routed(subs, Sub(["x", "y"], "r"), ["x", "z"]) && !TrulyMatches(["x", "y"], ["x", "z"])
  {
    var subs := map[Sub(["x", "#"], "p") := Peer("p", "", true, true), Sub(["x", "y"], "r") := Peer("r", "", true, true)];
    var k, w, q := ["x", "#"], ["x", "y"], ["x", "z"];
    assert Sub(k, "p") in subs && k in Live(subs);
    assert w[..1] == ["x"] && q[..1] == ["x"] && k[..1] == ["x"];
    assert IsSharpPoint(Live(subs), w, q, 1);
    assert w[1..] == ["y"] && q[1..] == ["z"];
    assert !TrulyMatches(w[1..], q[1..]);
  }

  // ----- queries with a wildcard before a literal fragment -----

  /** A key that matches the query and that the lookup misses. */
  function Missed(tested: string, q: Path): (k: Path)
    requires !WildsLast(tested, q)
    ensures Matches(k, q) && k != []
    decreases |q|
  {
    if IsWild(tested) && !IsWild(q[0]) then [q[0]] + seq(|q| - 1, _ => "*")
    else
      var k := Missed(q[0], q[1..]);
      assert (["*"] + k)[1..] == k;
      MatchesStep(["*"] + k, q);
      ["*"] + k
  }

  /** A tree that stores a peer under that key only offers nothing. */
  lemma {:induction false} MissedIsNotOffered(f: string, depth: nat, at: nat, p: Peer, tested: string, q: Path)
    requires !WildsLast(tested, q)
    ensures Offered(Add(Fresh(f, at), p, Missed(tested, q), depth), tested, q) == []
    decreases |q|
  {
    var k := Missed(tested, q);
    var n := Add(Fresh(f, at), p, k, depth);
    assert Placed(Fresh(f, at), k[0]) == None;
    if IsWild(tested) && !IsWild(q[0]) {
      assert n.star.None? && n.sharp.None?;
    } else {
      MissedIsNotOffered("*", depth + 1, depth, p, q[0], q[1..]);
      assert k[1..] == Missed(q[0], q[1..]);
      assert n.children == [] && n.sharp.None?;
      assert n.star == Some(Add(Fresh("*", depth), p, k[1..], depth + 1));
    }
  }

  /** The lookup is right about a query after every run. */
  ghost predicate AlwaysAnswers(q: Path)
    requires q != []
  {
    forall ops: seq<Op> :: AllowedRun(EmptyTree(), ops) ==>
      Answers(Registered(map[], ops), q, Lookup(Run(EmptyTree(), ops), Some(q)))
  }

  /** Lookups are right after every run if and only if the wildcards of the query, if any, come last. */
  lemma AnswersIffWildsLast(q: Path)
    requires q != [] && q != ["#"]
    ensures AlwaysAnswers(q) <==> WildsLast(q[0], q)
  {
    if WildsLast(q[0], q) {
      forall ops: seq<Op> | AllowedRun(EmptyTree(), ops)
        ensures Answers(Registered(map[], ops), q, Lookup(Run(EmptyTree(), ops), Some(q)))
      {
        RunAnswers(ops, q);
      }
    } else {
      MissedAfterOneSubscription(q);
    }
  }

  lemma RunOfOne(op: Op)
    requires Allowed(EmptyTree(), op)
    ensures AllowedRun(EmptyTree(), [op])
    ensures Run(EmptyTree(), [op]) == Apply(EmptyTree(), op) && Registered(map[], [op]) == Register(map[], op)
  {
    assert [op][1..] == [];
  }

  lemma MissedIsNotLookedUp(p: Peer, q: Path)
    requires q != [] && q != ["#"] && !WildsLast(q[0], q)
    ensures !IsEmpty(Some(Missed(q[0], q)))
    ensures Lookup(Subscribe(EmptyTree(), p, Some(Missed(q[0], q))), Some(q)) == []
  {
    hide WildsLast, Matches, Offered, Add;
    assert Missed(q[0], q) != ["#"];
    MissedIsNotOffered("", 0, 0, p, q[0], q);
  }

  lemma MissedAfterOneSubscription(q: Path)
    requires q != [] && q != ["#"] && !WildsLast(q[0], q)
    ensures !AlwaysAnswers(q)
  {
    hide WildsLast, Matches, Lookup, InLastBuckets, Subscribe, AlwaysAnswers, IsEmpty, Answers;
    var p, k := Peer("", "", false, false), Missed(q[0], q);
    var op := Subscribing(p, Some(k));
    InLastBucketsOfFresh("", 0, k);
    RunOfOne(op);
    MissedIsNotLookedUp(p, q);
    var subs := Register(map[], op);
    assert Routed(subs, Sub(k, p.id), q);
    WrongAnswer([op], q, Sub(k, p.id));
  }

  /** A run after which a lookup comes back empty although a subscription is routed. */
  lemma WrongAnswer(ops: seq<Op>, q: Path, s: Sub)
    requires q != [] && AllowedRun(EmptyTree(), ops) && Lookup(Run(EmptyTree(), ops), Some(q)) == []
    requires Routed(Registered(map[], ops), s, q)
    ensures !AlwaysAnswers(q)
  {
    hide Routed, Run, Registered, AllowedRun, Lookup;
    assert !Has([], s.id);
  }
}
