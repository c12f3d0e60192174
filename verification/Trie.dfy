/** The nodes of the peer subscription tree as values: what is stored where, and what adding and removing do. */
module Trie {
  import opened Options
  import opened PeerList

  /** Literal children come in buckets of this size, each full but for the last. */
  const BUCKET_MAX: nat := 32

  /** The fragments of a binding key from some depth on. */
  type Path = seq<string>

  /** `index` is the node's fragment index: its depth less one, and 0 for the root. */
  datatype Node = Node(fragment: string, index: nat, peers: seq<Peer>, sharp: Option<Node>, star: Option<Node>, children: seq<Node>)

  predicate IsWild(f: string) {
    f == "#" || f == "*"
  }

  function Fresh(fragment: string, index: nat): Node {
    Node(fragment, index, [], None, None, [])
  }

  // ----- where things are -----

  /** The position of the child for a literal fragment, or the number of children. */
  function Find(ns: seq<Node>, f: string): (i: nat)
    ensures i <= |ns|
    ensures forall j :: 0 <= j < i ==> ns[j].fragment != f
    ensures i < |ns| ==> ns[i].fragment == f
  {
    if ns == [] || ns[0].fragment == f then 0 else 1 + Find(ns[1..], f)
  }

  lemma FindFirst(ns: seq<Node>, f: string, i: nat)
    requires i <= |ns| && (forall j :: 0 <= j < i ==> ns[j].fragment != f) && (i < |ns| ==> ns[i].fragment == f)
    ensures Find(ns, f) == i
  {
  }

  function ChildIn(ns: seq<Node>, f: string): Option<Node> {
    var i := Find(ns, f);
    if i < |ns| then Some(ns[i]) else None
  }

  /** The child that a fragment of a key leads to. */
  function Child(n: Node, f: string): (c: Option<Node>)
    ensures c.Some? ==> c.value < n
  {
    if f == "#" then n.sharp else if f == "*" then n.star else ChildIn(n.children, f)
  }

  /** The peers stored for exactly the key `k`. */
  function PeersAt(n: Node, k: Path): seq<Peer> {
    if k == [] then n.peers
    else match Child(n, k[0])
      case None => []
      case Some(c) => PeersAt(c, k[1..])
  }

  /** All the peers of the subtree in the order `offer_all` visits them. */
  function All(n: Node): seq<Peer>
    decreases n, 0
  {
    n.peers + AllOf(n.sharp) + AllOf(n.star) + AllIn(n.children)
  }

  function AllOf(o: Option<Node>): seq<Peer>
    decreases o
  {
    if o.None? then [] else All(o.value)
  }

  function AllIn(ns: seq<Node>): seq<Peer>
    decreases ns
  {
    if ns == [] then [] else All(ns[0]) + AllIn(ns[1..])
  }

  /** `cb_peer_subscription_tree_node_count`. */
  function Count(n: Node): nat
    decreases n, 0
  {
    |n.peers| + CountOf(n.sharp) + CountOf(n.star) + CountIn(n.children)
  }

  function CountOf(o: Option<Node>): nat
    decreases o
  {
    if o.None? then 0 else Count(o.value)
  }

  function CountIn(ns: seq<Node>): nat
    decreases ns
  {
    if ns == [] then 0 else Count(ns[0]) + CountIn(ns[1..])
  }

  // ----- the invariant -----

  /** What every reachable tree keeps at a node `depth` fragments below the root: one entry for each peer, children
      under distinct literal fragments, and no child that is dead. */
  predicate Healthy(n: Node, depth: nat)
    decreases n, 0
  {
    && Distinct(n.peers)
    && DistinctFragments(n.children)
    && HealthyOf(n.sharp, "#", depth) && HealthyOf(n.star, "*", depth)
    && forall i :: 0 <= i < |n.children| ==> !IsWild(n.children[i].fragment) && HealthyChild(n.children[i], depth)
  }

  predicate HealthyOf(o: Option<Node>, f: string, depth: nat)
    decreases o
  {
    o.Some? ==> o.value.fragment == f && HealthyChild(o.value, depth)
  }

  /** A child below a node of that depth: its fragment index is its own depth less one, and a peer is stored below it. */
  predicate HealthyChild(c: Node, depth: nat)
    decreases c, 1
  {
    c.index == depth && Count(c) > 0 && Healthy(c, depth + 1)
  }

  predicate DistinctFragments(ns: seq<Node>) {
    forall i, j :: 0 <= i < j < |ns| ==> ns[i].fragment != ns[j].fragment
  }

  lemma ChildIsHealthy(n: Node, depth: nat, f: string)
    requires Healthy(n, depth)
    ensures Child(n, f).Some? ==> Child(n, f).value.fragment == f && HealthyChild(Child(n, f).value, depth)
  {
  }

  // ----- replacing a child -----

  /** Where the bucket starts that the next child would go to: the last one, or a new one if that is full. */
  function TailStart(ns: seq<Node>): (start: nat)
    ensures start <= |ns| < start + BUCKET_MAX
    ensures |ns| < BUCKET_MAX ==> start == 0
  {
    |ns| / BUCKET_MAX * BUCKET_MAX
  }

  /** The position of the child that `get_or_add_child_node` finds or makes: it searches that bucket only. */
  function Place(ns: seq<Node>, f: string): (i: nat)
    ensures TailStart(ns) <= i <= |ns|
    ensures i < |ns| ==> ns[i].fragment == f
  {
    TailStart(ns) + Find(ns[TailStart(ns)..], f)
  }

  /** The children with a child replaced, or appended. */
  function PutIn(ns: seq<Node>, i: nat, c: Node): seq<Node>
    requires i <= |ns|
  {
    if i < |ns| then ns[i := c] else ns + [c]
  }

  /** The children with one taken out and the later ones moved up. A second bucket that becomes empty takes the first one
      with it. */
  function TakenOut(ns: seq<Node>, i: nat): seq<Node>
    requires i < |ns|
  {
    if i == BUCKET_MAX && |ns| == BUCKET_MAX + 1 then [] else ns[..i] + ns[i + 1..]
  }

  /** The children with the one that a lookup finds for `f` put in place, appended, or taken out. */
  function Put(ns: seq<Node>, f: string, c: Option<Node>): seq<Node> {
    var i := Find(ns, f);
    if c.Some? then PutIn(ns, i, c.value) else if i < |ns| then TakenOut(ns, i) else ns
  }

  function WithChild(n: Node, f: string, c: Option<Node>): Node {
    if f == "#" then n.(sharp := c)
    else if f == "*" then n.(star := c)
    else n.(children := Put(n.children, f, c))
  }

  /** The child may be taken out: it is in a bucket that is not full, and not alone there unless there is no other bucket. */
  predicate Removable(ns: seq<Node>, i: nat) {
    TailStart(ns) <= i < |ns| && (|ns| % BUCKET_MAX == 1 ==> |ns| == 1)
  }

  /** A child taken out for the fragment, if any is, may be. */
  predicate MayLose(n: Node, f: string, c: Option<Node>) {
    IsWild(f) || c.Some? || Child(n, f).None? || Removable(n.children, Find(n.children, f))
  }

  lemma FindUnique(ns: seq<Node>, i: nat)
    requires DistinctFragments(ns) && i < |ns|
    ensures Find(ns, ns[i].fragment) == i
  {
  }

  /** Among children with distinct fragments the lookup finds exactly the one with the fragment. */
  lemma ChildInIsTheOne(ns: seq<Node>, f: string)
    requires DistinctFragments(ns)
    ensures ChildIn(ns, f).Some? ==> ChildIn(ns, f).value in ns && ChildIn(ns, f).value.fragment == f
    ensures forall c <- ns :: c.fragment == f ==> ChildIn(ns, f) == Some(c)
  {
    forall c | c in ns && c.fragment == f
      ensures ChildIn(ns, f) == Some(c)
    {
      var i :| 0 <= i < |ns| && ns[i] == c;
      FindUnique(ns, i);
    }
  }

  lemma TakenOutElements(ns: seq<Node>, i: nat)
    requires DistinctFragments(ns) && i < |ns|
    ensures DistinctFragments(ns[..i] + ns[i + 1..])
    ensures forall x :: x in ns[..i] + ns[i + 1..] <==> x in ns && x.fragment != ns[i].fragment
  {
    var ms := ns[..i] + ns[i + 1..];
    assert forall j :: 0 <= j < |ms| ==> ms[j] == if j < i then ns[j] else ns[j + 1];
    assert forall j :: 0 <= j < |ns| && j != i ==> ns[j] == ms[if j < i then j else j - 1];
  }

  lemma PutInElements(ns: seq<Node>, i: nat, c: Node)
    requires DistinctFragments(ns) && i <= |ns| && (i < |ns| ==> ns[i].fragment == c.fragment)
    requires i == |ns| ==> forall x <- ns :: x.fragment != c.fragment
    ensures DistinctFragments(PutIn(ns, i, c))
    ensures forall x :: x in PutIn(ns, i, c) <==> (x in ns && x.fragment != c.fragment) || x == c
  {
    var ms := PutIn(ns, i, c);
    assert forall j :: 0 <= j < |ms| ==> ms[j] == if j == i then c else ns[j];
    assert ms[i] == c;
  }

  lemma PutElements(ns: seq<Node>, f: string, c: Option<Node>)
    requires DistinctFragments(ns) && (c.Some? ==> c.value.fragment == f)
    requires c.Some? || ChildIn(ns, f).None? || Removable(ns, Find(ns, f))
    ensures DistinctFragments(Put(ns, f, c))
    ensures forall x :: x in Put(ns, f, c) <==> (x in ns && x.fragment != f) || c == Some(x)
  {
    var i := Find(ns, f);
    if c.Some? {
      PutInElements(ns, i, c.value);
    } else if i < |ns| {
      TakenOutElements(ns, i);
    }
  }

  /** Replacing a child changes what its fragment leads to, and nothing else. */
  lemma WithChildLeads(n: Node, f: string, c: Option<Node>, g: string)
    requires DistinctFragments(n.children) && (c.Some? ==> c.value.fragment == f) && MayLose(n, f, c)
    ensures DistinctFragments(WithChild(n, f, c).children)
    ensures Child(WithChild(n, f, c), g) == if g == f then c else Child(n, g)
    ensures WithChild(n, f, c).peers == n.peers
  {
    hide ChildIn, Put;
    if !IsWild(f) {
      PutElements(n.children, f, c);
      ChildInIsTheOne(n.children, g);
      ChildInIsTheOne(Put(n.children, f, c), g);
    }
  }

  /** Replacing a child by a healthy one, or by none, keeps the node healthy. */
  lemma WithChildHealthy(n: Node, depth: nat, f: string, c: Option<Node>)
    requires Healthy(n, depth) && (c.Some? ==> c.value.fragment == f && HealthyChild(c.value, depth))
    ensures Healthy(WithChild(n, f, c), depth)
  {
    hide ChildIn, Put;
    if !IsWild(f) {
      var ms := Put(n.children, f, c);
      PutAmong(n.children, f, c);
      forall i | 0 <= i < |ms|
        ensures !IsWild(ms[i].fragment) && HealthyChild(ms[i], depth)
      {
        assert ms[i] in ms;
      }
    }
  }

  /** Whatever is lost, the children that are left are of those before. */
  lemma PutAmong(ns: seq<Node>, f: string, c: Option<Node>)
    requires DistinctFragments(ns) && (c.Some? ==> c.value.fragment == f)
    ensures DistinctFragments(Put(ns, f, c))
    ensures forall x :: x in Put(ns, f, c) ==> x in ns || c == Some(x)
  {
    var i := Find(ns, f);
    if c.Some? {
      PutInElements(ns, i, c.value);
    } else if i < |ns| {
      TakenOutElements(ns, i);
    }
  }

  // ----- adding and removing -----

  /** The child that adding goes on with, if there is one already. */
  function Placed(n: Node, f: string): Option<Node> {
    if f == "#" then n.sharp
    else if f == "*" then n.star
    else if Place(n.children, f) < |n.children| then Some(n.children[Place(n.children, f)])
    else None
  }

  function PlacedOrFresh(n: Node, f: string, depth: nat): Node {
    match Placed(n, f)
    case None => Fresh(f, depth)
    case Some(c) => c
  }

  function WithPlaced(n: Node, f: string, c: Node): Node {
    if f == "#" then n.(sharp := Some(c))
    else if f == "*" then n.(star := Some(c))
    else n.(children := PutIn(n.children, Place(n.children, f), c))
  }

  /** `update_node` with `get_or_add_child_node`: nodes are made on the way, and the peer is stored at the end of the key. */
  function Add(n: Node, p: Peer, k: Path, depth: nat): Node
    decreases |k|
  {
    if k == [] then n.(peers := Insert(n.peers, p))
    else WithPlaced(n, k[0], Add(PlacedOrFresh(n, k[0], depth), p, k[1..], depth + 1))
  }

  function ChildOrFresh(n: Node, f: string, depth: nat): Node {
    match Child(n, f)
    case None => Fresh(f, depth)
    case Some(c) => c
  }

  /** `update_node` with `get_child_node`: a child that has no peers left below it is taken out on the way back. */
  function Remove(n: Node, id: string, k: Path): Node
    decreases |k|
  {
    if k == [] then n.(peers := Delete(n.peers, id))
    else match Child(n, k[0])
      case None => n
      case Some(c) => WithChild(n, k[0], Prune(Remove(c, id, k[1..])))
  }

  function Prune(c: Node): Option<Node> {
    if Count(c) == 0 then None else Some(c)
  }

  /** The fragment is a wildcard, new among the children, or that of a child that the search of the last bucket finds. */
  predicate InLastBucket(n: Node, f: string) {
    IsWild(f) || TailStart(n.children) <= Find(n.children, f)
  }

  /** Adding meets no child that is in an earlier bucket. */
  predicate InLastBuckets(n: Node, k: Path)
    decreases |k|
  {
    k == [] || (InLastBucket(n, k[0]) && match Child(n, k[0])
      case None => true
      case Some(c) => InLastBuckets(c, k[1..]))
  }

  /** The walk for removing meets no missing wildcard child, which the code would dereference. */
  predicate Walkable(n: Node, k: Path)
    decreases |k|
  {
    k == [] || match Child(n, k[0])
      case None => !IsWild(k[0])
      case Some(c) => Walkable(c, k[1..])
  }

  /** Removing takes no child out of a full bucket, where the code moves one slot more than there is, and empties no bucket
      but the only one. */
  predicate SparesBuckets(n: Node, id: string, k: Path)
    decreases |k|
  {
    k == [] || match Child(n, k[0])
      case None => true
      case Some(c) => MayLose(n, k[0], Prune(Remove(c, id, k[1..]))) && SparesBuckets(c, id, k[1..])
  }

  /** Where the search of the last bucket is right, adding goes on with the child that a lookup finds. */
  lemma PlacedIsChild(n: Node, f: string, c: Node)
    requires InLastBucket(n, f)
    ensures Placed(n, f) == Child(n, f) && WithPlaced(n, f, c) == WithChild(n, f, Some(c))
  {
    if !IsWild(f) {
      PlaceIsFind(n.children, f);
    }
  }

  lemma PlaceIsFind(ns: seq<Node>, f: string)
    requires TailStart(ns) <= Find(ns, f)
    ensures Place(ns, f) == Find(ns, f)
  {
    hide Find, TailStart;
    var start, i := TailStart(ns), Find(ns, f);
    assert forall j :: 0 <= j < |ns[start..]| ==> ns[start..][j] == ns[start + j];
    FindFirst(ns[start..], f, i - start);
  }

  /** Where it is not, adding appends a second node for the fragment, which no lookup comes to. */
  lemma PlacedBehind(n: Node, f: string, c: Node, g: string)
    requires DistinctFragments(n.children) && !InLastBucket(n, f) && c.fragment == f
    ensures Placed(n, f) == None && Child(WithPlaced(n, f, c), g) == Child(n, g)
    ensures !DistinctFragments(WithPlaced(n, f, c).children)
  {
    var ns := n.children;
    var start, i := TailStart(ns), Find(ns, f);
    assert forall j :: 0 <= j < |ns[start..]| ==> ns[start..][j] == ns[start + j];
    assert Place(ns, f) == |ns|;
    assert (ns + [c])[|ns|].fragment == (ns + [c])[i].fragment;
    FindBehind(ns, c, g);
  }

  lemma {:induction false} FindBehind(ns: seq<Node>, c: Node, g: string)
    requires Find(ns, c.fragment) < |ns|
    ensures ChildIn(ns + [c], g) == ChildIn(ns, g)
  {
    var i := Find(ns, g);
    assert forall j :: 0 <= j < |ns| ==> (ns + [c])[j] == ns[j];
    assert i == |ns| ==> forall j :: 0 <= j <= |ns| ==> (ns + [c])[j].fragment != g;
  }

  // ----- what they do to what is stored -----

  /** A dead subtree stores nothing anywhere. */
  lemma {:induction false} DeadStoresNothing(n: Node, k: Path)
    requires Count(n) == 0
    ensures PeersAt(n, k) == []
    decreases |k|
  {
    if k == [] {
    } else if Child(n, k[0]).Some? {
      var c := Child(n, k[0]).value;
      if !IsWild(k[0]) {
        CountInAt(n.children, Find(n.children, k[0]));
      }
      DeadStoresNothing(c, k[1..]);
    }
  }

  lemma {:induction false} CountInAt(ns: seq<Node>, i: nat)
    requires i < |ns|
    ensures Count(ns[i]) <= CountIn(ns)
  {
    if i == 0 {
    } else {
      CountInAt(ns[1..], i - 1);
    }
  }

  /** A live subtree stores some peer under some key. */
  lemma {:induction false} LiveStoresSomething(n: Node, depth: nat) returns (k: Path)
    requires Healthy(n, depth) && Count(n) > 0
    ensures PeersAt(n, k) != []
    decreases n
  {
    ChildIsHealthy(n, depth, "#");
    ChildIsHealthy(n, depth, "*");
    if n.peers != [] {
      k := [];
    } else if n.sharp.Some? {
      k := LiveStoresSomething(n.sharp.value, depth + 1);
      assert (["#"] + k)[1..] == k;
      k := ["#"] + k;
    } else if n.star.Some? {
      k := LiveStoresSomething(n.star.value, depth + 1);
      assert (["*"] + k)[1..] == k;
      k := ["*"] + k;
    } else {
      var c := n.children[0];
      FindUnique(n.children, 0);
      k := LiveStoresSomething(c, depth + 1);
      assert ([c.fragment] + k)[1..] == k;
      k := [c.fragment] + k;
    }
  }

  lemma NothingAtFresh(f: string, depth: nat, k: Path)
    ensures PeersAt(Fresh(f, depth), k) == []
    ensures Healthy(Fresh(f, depth), depth + 1) && Count(Fresh(f, depth)) == 0
  {
  }

  lemma ChildOrFreshFacts(n: Node, k: Path, depth: nat)
    requires Healthy(n, depth) && k != []
    ensures Healthy(ChildOrFresh(n, k[0], depth), depth + 1) && DistinctFragments(n.children)
    ensures ChildOrFresh(n, k[0], depth).fragment == k[0] && ChildOrFresh(n, k[0], depth).index == depth
    ensures Prune(ChildOrFresh(n, k[0], depth)) == Child(n, k[0])
    ensures PeersAt(n, k) == PeersAt(ChildOrFresh(n, k[0], depth), k[1..])
  {
    ChildIsHealthy(n, depth, k[0]);
    NothingAtFresh(k[0], depth, k[1..]);
  }

  /** Adding inserts the peer at the key and changes nothing at any other key, unless the walk meets a child that is in an
      earlier bucket: then it changes nothing that a lookup comes to. */
  lemma {:induction false} AddStores(n: Node, p: Peer, k: Path, depth: nat, other: Path)
    requires Healthy(n, depth)
    ensures PeersAt(Add(n, p, k, depth), other) ==
      if other == k && InLastBuckets(n, k) then Insert(PeersAt(n, k), p) else PeersAt(n, other)
    decreases |k|
  {
    if k != [] && other != [] {
      hide Healthy, Placed, WithPlaced, WithChild, Child, InLastBucket;
      assert k == [k[0]] + k[1..] && other == [other[0]] + other[1..];
      var added := Add(PlacedOrFresh(n, k[0], depth), p, k[1..], depth + 1);
      AddKeepsFragment(PlacedOrFresh(n, k[0], depth), p, k[1..], depth + 1);
      PlacedFragment(n, k[0], depth);
      ChildOrFreshFacts(n, k, depth);
      if InLastBucket(n, k[0]) {
        PlacedIsChild(n, k[0], added);
        WithChildLeads(n, k[0], Some(added), other[0]);
        if other[0] == k[0] {
          var c := ChildOrFresh(n, k[0], depth);
          AddStores(c, p, k[1..], depth + 1, other[1..]);
          NothingAtFresh(k[0], depth, other[1..]);
          InLastBucketsOfFresh(k[0], depth, k[1..]);
        }
      } else {
        PlacedBehind(n, k[0], added, other[0]);
      }
    }
  }

  lemma PlacedFragment(n: Node, f: string, depth: nat)
    requires Healthy(n, depth)
    ensures PlacedOrFresh(n, f, depth).fragment == f
  {
    ChildIsHealthy(n, depth, f);
  }

  lemma AddKeepsFragment(n: Node, p: Peer, k: Path, depth: nat)
    ensures Add(n, p, k, depth).fragment == n.fragment && Add(n, p, k, depth).index == n.index
  {
  }

  /** Adding leaves a live node. */
  lemma {:induction false} AddIsLive(n: Node, p: Peer, k: Path, depth: nat)
    ensures Count(Add(n, p, k, depth)) > 0
    decreases |k|
  {
    if k == [] {
      InsertIsSome(n.peers, p);
    } else {
      var added := Add(PlacedOrFresh(n, k[0], depth), p, k[1..], depth + 1);
      AddIsLive(PlacedOrFresh(n, k[0], depth), p, k[1..], depth + 1);
      if !IsWild(k[0]) {
        var i := Place(n.children, k[0]);
        assert PutIn(n.children, i, added)[i] == added;
        CountInAt(PutIn(n.children, i, added), i);
      }
    }
  }

  lemma InsertIsSome(ps: seq<Peer>, p: Peer)
    ensures Insert(ps, p) != []
  {
  }

  /** Adding keeps the invariant if and only if the walk meets no child that is in an earlier bucket. */
  lemma {:induction false} AddIsHealthy(n: Node, p: Peer, k: Path, depth: nat)
    requires Healthy(n, depth)
    ensures Healthy(Add(n, p, k, depth), depth) <==> InLastBuckets(n, k)
    ensures Count(Add(n, p, k, depth)) > 0
    decreases |k|
  {
    AddIsLive(n, p, k, depth);
    if k == [] {
      InsertGets(n.peers, p);
    } else {
      hide Placed, WithPlaced, WithChild, Child, InLastBucket, Add, Count, Healthy;
      var c := PlacedOrFresh(n, k[0], depth);
      var added := Add(c, p, k[1..], depth + 1);
      AddStep(n, p, k, depth);
      AddKeepsFragment(c, p, k[1..], depth + 1);
      PlacedFragment(n, k[0], depth);
      ChildOrFreshFacts(n, k, depth);
      if InLastBucket(n, k[0]) {
        PlacedIsChild(n, k[0], added);
        AddIsHealthy(c, p, k[1..], depth + 1);
        InLastBucketsOfFresh(k[0], depth, k[1..]);
        WithChildLeads(n, k[0], Some(added), k[0]);
        ChildHealthIff(n, depth, k[0], added);
      } else {
        PlacedBehind(n, k[0], added, k[0]);
        if Healthy(Add(n, p, k, depth), depth) {
          HealthyIsDistinct(Add(n, p, k, depth), depth);
        }
      }
    }
  }

  lemma AddStep(n: Node, p: Peer, k: Path, depth: nat)
    requires k != []
    ensures Add(n, p, k, depth) == WithPlaced(n, k[0], Add(PlacedOrFresh(n, k[0], depth), p, k[1..], depth + 1))
  {
  }

  lemma HealthyIsDistinct(n: Node, depth: nat)
    requires Healthy(n, depth)
    ensures DistinctFragments(n.children)
  {
  }

  lemma ChildHealthIff(n: Node, depth: nat, f: string, c: Node)
    requires Healthy(n, depth) && c.fragment == f && c.index == depth && Count(c) > 0
    requires Child(WithChild(n, f, Some(c)), f) == Some(c)
    ensures Healthy(WithChild(n, f, Some(c)), depth) <==> Healthy(c, depth + 1)
  {
    hide WithChild;
    if Healthy(c, depth + 1) {
      WithChildHealthy(n, depth, f, Some(c));
    }
    if Healthy(WithChild(n, f, Some(c)), depth) {
      ChildIsHealthy(WithChild(n, f, Some(c)), depth, f);
    }
  }

  lemma InLastBucketsOfFresh(f: string, depth: nat, k: Path)
    ensures InLastBuckets(Fresh(f, depth), k)
  {
  }

  /** Removing deletes the peer at the key and changes nothing at any other key. */
  lemma {:induction false} RemoveStores(n: Node, id: string, k: Path, depth: nat, other: Path)
    requires Healthy(n, depth) && SparesBuckets(n, id, k)
    ensures PeersAt(Remove(n, id, k), other) == if other == k then Delete(PeersAt(n, k), id) else PeersAt(n, other)
    decreases |k|
  {
    if k != [] && other != [] && Child(n, k[0]).Some? {
      var c := Child(n, k[0]).value;
      ChildIsHealthy(n, depth, k[0]);
      RemoveKeepsFragment(c, id, k[1..]);
      var removed := Remove(c, id, k[1..]);
      WithChildLeads(n, k[0], Prune(removed), other[0]);
      if other[0] == k[0] {
        RemoveStores(c, id, k[1..], depth + 1, other[1..]);
        if Count(removed) == 0 {
          DeadStoresNothing(removed, other[1..]);
        }
        assert k == [k[0]] + k[1..] && other == [other[0]] + other[1..];
      }
    } else if k != [] && other != [] {
      assert k == [k[0]] + k[1..] && other == [other[0]] + other[1..];
    } else if k != [] && Child(n, k[0]).Some? {
      RemoveKeepsFragment(Child(n, k[0]).value, id, k[1..]);
      WithChildLeads(n, k[0], Prune(Remove(Child(n, k[0]).value, id, k[1..])), k[0]);
    }
  }

  lemma RemoveKeepsFragment(n: Node, id: string, k: Path)
    ensures Remove(n, id, k).fragment == n.fragment && Remove(n, id, k).index == n.index
  {
  }

  /** Removing keeps the invariant: children that die are taken out. */
  lemma {:induction false} RemoveIsHealthy(n: Node, id: string, k: Path, depth: nat)
    requires Healthy(n, depth)
    ensures Healthy(Remove(n, id, k), depth)
    decreases |k|
  {
    if k == [] {
      DeleteGets(n.peers, id);
    } else if Child(n, k[0]).Some? {
      var c := Child(n, k[0]).value;
      ChildIsHealthy(n, depth, k[0]);
      RemoveIsHealthy(c, id, k[1..], depth + 1);
      RemoveKeepsFragment(c, id, k[1..]);
      WithChildHealthy(n, depth, k[0], Prune(Remove(c, id, k[1..])));
    }
  }

  /** Adding a fresh subscription and removing it again gives back the very same tree. */
  lemma {:induction false} RemoveUndoesAdd(n: Node, p: Peer, k: Path, depth: nat)
    requires Healthy(n, depth) && Get(PeersAt(n, k), p.id).None?
    requires InLastBuckets(n, k) && SparesBuckets(Add(n, p, k, depth), p.id, k)
    ensures Remove(Add(n, p, k, depth), p.id, k) == n
    decreases |k|
  {
    if k == [] {
      DeleteUndoesInsert(n.peers, p);
    } else {
      hide Healthy, WithChild, WithPlaced, Placed, Child, Count, ChildOrFresh, Prune, Add, MayLose, InLastBucket;
      var c := ChildOrFresh(n, k[0], depth);
      ChildOrFreshFacts(n, k, depth);
      InLastBucketsBelow(n, k, depth);
      AddStep(n, p, k, depth);
      AddKeepsFragment(c, p, k[1..], depth + 1);
      var added := Add(c, p, k[1..], depth + 1);
      PlacedIsChild(n, k[0], added);
      WithSomeLeads(n, k[0], added);
      RemoveUndoesAdd(c, p, k[1..], depth + 1);
      WithChildTwice(n, k[0], added);
    }
  }

  lemma InLastBucketsBelow(n: Node, k: Path, depth: nat)
    requires k != [] && InLastBuckets(n, k)
    ensures InLastBucket(n, k[0]) && InLastBuckets(ChildOrFresh(n, k[0], depth), k[1..])
    ensures PlacedOrFresh(n, k[0], depth) == ChildOrFresh(n, k[0], depth)
  {
    InLastBucketsOfFresh(k[0], depth, k[1..]);
    PlacedIsChild(n, k[0], n);
  }

  lemma WithSomeLeads(n: Node, f: string, c: Node)
    requires DistinctFragments(n.children) && c.fragment == f
    ensures Child(WithChild(n, f, Some(c)), f) == Some(c)
  {
    WithChildLeads(n, f, Some(c), f);
  }

  /** Putting back what was there before, or taking out what was not. */
  lemma WithChildTwice(n: Node, f: string, c: Node)
    requires DistinctFragments(n.children) && c.fragment == f && MayLose(WithChild(n, f, Some(c)), f, Child(n, f))
    ensures WithChild(WithChild(n, f, Some(c)), f, Child(n, f)) == n
  {
    if !IsWild(f) {
      PutElements(n.children, f, Some(c));
      var i, ms := Find(n.children, f), Put(n.children, f, Some(c));
      assert ms[i] == c;
      FindUnique(ms, i);
      if i < |n.children| {
        assert ms[i := n.children[i]] == n.children;
      } else {
        assert ms[..i] + ms[i + 1..] == n.children;
      }
    }
  }

  /** Some peer is stored for the key, so the walk along it finds every wildcard child. */
  lemma {:induction false} StoredIsWalkable(n: Node, k: Path)
    requires PeersAt(n, k) != []
    ensures Walkable(n, k)
    decreases |k|
  {
    if k == [] {
    } else {
      StoredIsWalkable(Child(n, k[0]).value, k[1..]);
    }
  }
}
