/** Which version of a peer a lookup returns when the peer's subscriptions hold different ones. */
module LookupOrder {
  import opened Options
  import opened PeerList
  import opened Trie
  import opened Routing
  import opened Subscriptions
  import opened BindingKey

  // ----- the keys that a lookup visits -----

  function Here(n: Node): seq<Path> {
    if n.peers == [] then [] else [[]]
  }

  function Under(f: string, ks: seq<Path>): (r: seq<Path>)
    ensures |r| == |ks| && forall i :: 0 <= i < |r| ==> r[i] == [f] + ks[i]
  {
    seq(|ks|, i requires 0 <= i < |ks| => [f] + ks[i])
  }

  /** The keys with peers in the subtree, in the order of `offer_all`. */
  function AllVisits(n: Node): seq<Path>
    decreases n, 0
  {
    Here(n) + VisitsOf(n.sharp) + VisitsOf(n.star) + VisitsIn(n.children)
  }

  function VisitsOf(o: Option<Node>): seq<Path>
    decreases o
  {
    if o.None? then [] else Under(o.value.fragment, AllVisits(o.value))
  }

  function VisitsIn(ns: seq<Node>): seq<Path>
    decreases ns
  {
    if ns == [] then [] else Under(ns[0].fragment, AllVisits(ns[0])) + VisitsIn(ns[1..])
  }

  /** The keys with peers that `collect` comes to, in its order: all of a subtree with a `#` child, then what is under `*`, then
      what is under the literal fragment. A key may be visited more than once. */
  function Visits(n: Node, tested: string, q: Path): seq<Path>
    decreases |q|
  {
    if q == [] then Here(n)
    else
      (if n.sharp.Some? then AllVisits(n) else [])
      + (if n.star.Some? then Under("*", Visits(n.star.value, q[0], q[1..])) else [])
      + (match Tested(n, tested, q[0])
         case None => []
         case Some(c) => Under(c.fragment, Visits(c, q[0], q[1..])))
  }

  lemma InUnder(f: string, ks: seq<Path>, k: Path)
    ensures k in Under(f, ks) <==> k != [] && k[0] == f && k[1..] in ks
  {
    var r := Under(f, ks);
    if k in r {
      var i :| 0 <= i < |r| && r[i] == k;
      assert k[1..] == ks[i];
    }
    if k != [] && k[0] == f && k[1..] in ks {
      var i :| 0 <= i < |ks| && ks[i] == k[1..];
      assert r[i] == k;
    }
  }

  lemma {:induction false} InVisitsIn(ns: seq<Node>, k: Path)
    requires DistinctFragments(ns)
    ensures k in VisitsIn(ns) <==> k != [] && ChildIn(ns, k[0]).Some? && k[1..] in AllVisits(ChildIn(ns, k[0]).value)
    decreases ns
  {
    hide AllVisits;
    if ns == [] {
    } else {
      InUnder(ns[0].fragment, AllVisits(ns[0]), k);
      InVisitsIn(ns[1..], k);
      NotInTail(ns);
    }
  }

  lemma NotInTail(ns: seq<Node>)
    requires DistinctFragments(ns) && ns != []
    ensures ChildIn(ns[1..], ns[0].fragment).None?
  {
    assert forall j :: 0 <= j < |ns| - 1 ==> ns[1..][j] == ns[j + 1];
  }

  /** `offer_all` visits every key with peers in the subtree. */
  lemma {:induction false} AllVisitsAreLive(n: Node, depth: nat, k: Path)
    requires Healthy(n, depth)
    ensures k in AllVisits(n) <==> PeersAt(n, k) != []
    decreases |k|
  {
    AllVisitsStep(n, depth, k);
    if k != [] && Child(n, k[0]).Some? {
      ChildIsHealthy(n, depth, k[0]);
      AllVisitsAreLive(Child(n, k[0]).value, depth + 1, k[1..]);
    }
  }

  lemma AllVisitsStep(n: Node, depth: nat, k: Path)
    requires Healthy(n, depth)
    ensures k in AllVisits(n) <==>
      if k == [] then n.peers != [] else Child(n, k[0]).Some? && k[1..] in AllVisits(Child(n, k[0]).value)
  {
    hide Healthy;
    ChildIsHealthy(n, depth, "#");
    ChildIsHealthy(n, depth, "*");
    HealthyIsDistinct(n, depth);
    InVisitsIn(n.children, k);
    NoWildChild(n, depth);
    if n.sharp.Some? {
      InUnder("#", AllVisits(n.sharp.value), k);
    }
    if n.star.Some? {
      InUnder("*", AllVisits(n.star.value), k);
    }
  }

  lemma NoWildChild(n: Node, depth: nat)
    requires Healthy(n, depth)
    ensures ChildIn(n.children, "#").None? && ChildIn(n.children, "*").None?
  {
  }

  lemma TestedIsChild(n: Node, depth: nat, tested: string, f: string)
    requires Healthy(n, depth) && Tested(n, tested, f).Some?
    ensures var c := Tested(n, tested, f).value; Child(n, c.fragment) == Some(c) && Healthy(c, depth + 1)
  {
    ChildIsHealthy(n, depth, tested);
    NoWildChild(n, depth);
    ChildIsHealthy(n, depth, f);
  }

  lemma VisitsBelow(n: Node, depth: nat, tested: string, q: Path, k: Path)
    requires Healthy(n, depth) && q != [] && k in Visits(n, tested, q)
    ensures k in AllVisits(n)
      || (k != [] && Child(n, k[0]).Some? && k[1..] in Visits(Child(n, k[0]).value, q[0], q[1..]))
  {
    hide Healthy, AllVisits;
    if n.star.Some? {
      InUnder("*", Visits(n.star.value, q[0], q[1..]), k);
    }
    var c := Tested(n, tested, q[0]);
    if c.Some? {
      TestedIsChild(n, depth, tested, q[0]);
      InUnder(c.value.fragment, Visits(c.value, q[0], q[1..]), k);
    }
  }

  /** Whatever the query, the keys visited are keys with peers. */
  lemma {:induction false} VisitsAreLive(n: Node, depth: nat, tested: string, q: Path, k: Path)
    requires Healthy(n, depth) && k in Visits(n, tested, q)
    ensures PeersAt(n, k) != []
    decreases |q|
  {
    AllVisitsAreLive(n, depth, k);
    if q == [] {
    } else {
      VisitsBelow(n, depth, tested, q, k);
      if k != [] && Child(n, k[0]).Some? && k[1..] in Visits(Child(n, k[0]).value, q[0], q[1..]) {
        ChildIsHealthy(n, depth, k[0]);
        VisitsAreLive(Child(n, k[0]).value, depth + 1, q[0], q[1..], k[1..]);
      }
    }
  }

  /** A lookup whose wildcards come last visits the keys with peers that lead there. */
  lemma {:induction false} VisitsLead(n: Node, depth: nat, tested: string, q: Path, k: Path)
    requires Healthy(n, depth) && WildsLast(tested, q)
    ensures k in Visits(n, tested, q) <==> PeersAt(n, k) != [] && Leads(n, k, q)
    decreases |q|
  {
    if q == [] {
    } else if n.sharp.Some? {
      AllVisitsAreLive(n, depth, k);
      if k in Visits(n, tested, q) {
        VisitsAreLive(n, depth, tested, q, k);
      }
    } else {
      VisitsStep(n, depth, tested, q, k);
      if k != [] && Child(n, k[0]).Some? {
        ChildIsHealthy(n, depth, k[0]);
        VisitsLead(Child(n, k[0]).value, depth + 1, q[0], q[1..], k[1..]);
      }
    }
  }

  lemma VisitsStep(n: Node, depth: nat, tested: string, q: Path, k: Path)
    requires Healthy(n, depth) && WildsLast(tested, q) && q != [] && n.sharp.None?
    ensures k in Visits(n, tested, q) <==>
      k != [] && (k[0] == "*" || k[0] == q[0]) && Child(n, k[0]).Some? && k[1..] in Visits(Child(n, k[0]).value, q[0], q[1..])
  {
    hide Healthy, AllVisits;
    if n.star.Some? {
      InUnder("*", Visits(n.star.value, q[0], q[1..]), k);
    }
    NoWildChild(n, depth);
    var c := Tested(n, tested, q[0]);
    if c.Some? {
      TestedIsChild(n, depth, tested, q[0]);
      ChildIsHealthy(n, depth, tested);
      ChildIsHealthy(n, depth, q[0]);
      InUnder(c.value.fragment, Visits(c.value, q[0], q[1..]), k);
    }
  }

  // ----- what is offered on the way -----

  /** The peers stored under the keys. */
  function Gathered(n: Node, ks: seq<Path>): seq<Peer> {
    if ks == [] then [] else PeersAt(n, ks[0]) + Gathered(n, ks[1..])
  }

  lemma {:induction false} GatheredAppend(n: Node, a: seq<Path>, b: seq<Path>)
    ensures Gathered(n, a + b) == Gathered(n, a) + Gathered(n, b)
  {
    hide PeersAt;
    if a == [] {
      assert a + b == b;
    } else {
      assert (a + b)[0] == a[0] && (a + b)[1..] == a[1..] + b;
      GatheredAppend(n, a[1..], b);
    }
  }

  lemma {:induction false} GatheredUnder(n: Node, f: string, c: Node, ks: seq<Path>)
    requires Child(n, f) == Some(c)
    ensures Gathered(n, Under(f, ks)) == Gathered(c, ks)
    decreases |ks|
  {
    if ks == [] {
    } else {
      assert Under(f, ks)[1..] == Under(f, ks[1..]);
      assert ([f] + ks[0])[1..] == ks[0];
      GatheredUnder(n, f, c, ks[1..]);
    }
  }

  lemma GatheredHere(n: Node)
    ensures Gathered(n, Here(n)) == n.peers
  {
    assert Gathered(n, [[]]) == PeersAt(n, []) + [];
  }

  /** What `offer_all` offers is what is stored under the keys it visits. */
  lemma {:induction false} AllIsGathered(n: Node, depth: nat)
    requires Healthy(n, depth)
    ensures All(n) == Gathered(n, AllVisits(n))
    decreases n, 1
  {
    hide Gathered, Healthy;
    GatheredHere(n);
    ChildIsHealthy(n, depth, "#");
    ChildIsHealthy(n, depth, "*");
    if n.sharp.Some? {
      AllIsGathered(n.sharp.value, depth + 1);
      GatheredUnder(n, "#", n.sharp.value, AllVisits(n.sharp.value));
    }
    if n.star.Some? {
      AllIsGathered(n.star.value, depth + 1);
      GatheredUnder(n, "*", n.star.value, AllVisits(n.star.value));
    }
    AllInIsGathered(n, depth, 0);
    assert n.children[0..] == n.children;
    GatheredNothing(n);
    GatheredAppend(n, Here(n), VisitsOf(n.sharp));
    GatheredAppend(n, Here(n) + VisitsOf(n.sharp), VisitsOf(n.star));
    GatheredAppend(n, Here(n) + VisitsOf(n.sharp) + VisitsOf(n.star), VisitsIn(n.children));
  }

  lemma GatheredNothing(n: Node)
    ensures Gathered(n, []) == []
  {
  }

  lemma {:induction false} AllInIsGathered(n: Node, depth: nat, i: nat)
    requires Healthy(n, depth) && i <= |n.children|
    ensures AllIn(n.children[i..]) == Gathered(n, VisitsIn(n.children[i..]))
    decreases n, 0, |n.children| - i
  {
    hide Gathered, All, AllVisits;
    var rest := n.children[i..];
    GatheredNothing(n);
    if i == |n.children| {
    } else {
      var c := n.children[i];
      assert rest[0] == c && rest[1..] == n.children[i + 1..];
      FindUnique(n.children, i);
      AllIsGathered(c, depth + 1);
      GatheredUnder(n, c.fragment, c, AllVisits(c));
      AllInIsGathered(n, depth, i + 1);
      GatheredAppend(n, Under(c.fragment, AllVisits(c)), VisitsIn(rest[1..]));
    }
  }

  /** What a lookup is offered is what is stored under the keys it visits. */
  lemma {:induction false} OfferedIsGathered(n: Node, depth: nat, tested: string, q: Path)
    requires Healthy(n, depth)
    ensures Offered(n, tested, q) == Gathered(n, Visits(n, tested, q))
    decreases |q|
  {
    hide Gathered, Healthy, All, AllVisits;
    GatheredHere(n);
    if q == [] {
    } else {
      GatheredNothing(n);
      ChildIsHealthy(n, depth, "*");
      AllIsGathered(n, depth);
      if n.star.Some? {
        OfferedIsGathered(n.star.value, depth + 1, q[0], q[1..]);
        GatheredUnder(n, "*", n.star.value, Visits(n.star.value, q[0], q[1..]));
      }
      var a := if n.sharp.Some? then AllVisits(n) else [];
      var b := if n.star.Some? then Under("*", Visits(n.star.value, q[0], q[1..])) else [];
      var c := Tested(n, tested, q[0]);
      GatheredAppend(n, a, b);
      assert a + b + [] == a + b;
      if c.Some? {
        TestedIsChild(n, depth, tested, q[0]);
        OfferedIsGathered(c.value, depth + 1, q[0], q[1..]);
        GatheredUnder(n, c.value.fragment, c.value, Visits(c.value, q[0], q[1..]));
        GatheredAppend(n, a + b, Under(c.value.fragment, Visits(c.value, q[0], q[1..])));
      }
    }
  }

  // ----- which version is returned -----

  /** The version under the last of the keys that the peer has subscribed to. */
  function Latest(subs: Registry, id: string, ks: seq<Path>): Option<Peer> {
    if ks == [] then None
    else
      var s := Sub(ks[|ks| - 1], id);
      if s in subs then Some(subs[s]) else Latest(subs, id, ks[..|ks| - 1])
  }

  lemma {:induction false} OfferGathered(t: Tree, subs: Registry, acc: seq<Peer>, ks: seq<Path>, id: string)
    requires Sound(t) && Agrees(t, subs) && Distinct(acc) && forall k <- ks :: k != []
    ensures Get(Offer(acc, Gathered(t.root, ks)), id) == if Latest(subs, id, ks).Some? then Latest(subs, id, ks) else Get(acc, id)
    ensures Distinct(Offer(acc, Gathered(t.root, ks)))
    decreases |ks|
  {
    hide Get, Healthy, Distinct;
    if ks == [] {
    } else {
      var last, before := ks[|ks| - 1], ks[..|ks| - 1];
      assert ks == before + [last] && last in ks && forall k <- before :: k in ks;
      OfferGathered(t, subs, acc, before, id);
      GatheredAppend(t.root, before, [last]);
      GatheredOne(t.root, last);
      OfferTwice(acc, Gathered(t.root, before), PeersAt(t.root, last));
      StoredIsDistinct(t.root, 0, last);
      OfferTakesOver(Offer(acc, Gathered(t.root, before)), PeersAt(t.root, last), id);
      OfferHas(Offer(acc, Gathered(t.root, before)), PeersAt(t.root, last));
      AgreesAt(t, subs, Sub(last, id));
    }
  }

  lemma GatheredOne(n: Node, k: Path)
    ensures Gathered(n, [k]) == PeersAt(n, k)
  {
    assert [k][1..] == [];
  }

  /** The keys that a lookup visits, in order: the empty key first. */
  function Visited(t: Tree, key: Key): seq<Path>
    requires ValidKey(key)
  {
    [[]] + if IsEmpty(key) then AllVisits(t.root) else Visits(t.root, key.value[0], key.value)
  }

  lemma {:induction false} LatestAppend(subs: Registry, id: string, a: seq<Path>, b: seq<Path>)
    ensures Latest(subs, id, a + b) == if Latest(subs, id, b).Some? then Latest(subs, id, b) else Latest(subs, id, a)
    decreases |b|
  {
    if b == [] {
      assert a + b == a;
    } else {
      assert (a + b)[..|a + b| - 1] == a + b[..|b| - 1];
      LatestAppend(subs, id, a, b[..|b| - 1]);
    }
  }

  /** A lookup visits the keys that subscriptions have: with the empty key all of them. */
  lemma VisitedAreLive(t: Tree, subs: Registry, key: Key, k: Path)
    requires Sound(t) && Agrees(t, subs) && ValidKey(key)
    ensures k in Visited(t, key) ==> k == [] || k in Live(subs)
    ensures k in Live(subs) && IsEmpty(key) ==> k in Visited(t, key)
    ensures k !in (if IsEmpty(key) then AllVisits(t.root) else Visits(t.root, key.value[0], key.value)) || k != []
  {
    hide Healthy, AllVisits, Visits, PeersAt;
    LiveIsLive(t, subs);
    AllVisitsAreLive(t.root, 0, k);
    NothingStored(t.root);
    if !IsEmpty(key) && k in Visits(t.root, key.value[0], key.value) {
      VisitsAreLive(t.root, 0, key.value[0], key.value, k);
    }
  }

  lemma NothingStored(n: Node)
    ensures PeersAt(n, []) == n.peers
  {
  }

  /** With a query whose wildcards come last, they are the keys that are routed. */
  lemma VisitedAreRouted(t: Tree, subs: Registry, q: Path, k: Path)
    requires Sound(t) && Agrees(t, subs) && q != [] && q != ["#"] && WildsLast(q[0], q)
    ensures k in Visited(t, Some(q)) <==> k == [] || (k in Live(subs) && Routes(Live(subs), k, q))
  {
    hide Healthy, Visits, PeersAt, Routes, Leads, WildsLast;
    LiveIsLive(t, subs);
    VisitsLead(t.root, 0, q[0], q, k);
    if k in LiveKeys(t.root) {
      LeadsIsRoutes(t.root, 0, k, q);
    }
  }

  /** A lookup returns a peer in the version under the last visited key that the peer has subscribed to. */
  lemma LookupIsLatest(t: Tree, subs: Registry, key: Key, id: string)
    requires Sound(t) && Agrees(t, subs) && ValidKey(key)
    ensures Get(Lookup(t, key), id) == Latest(subs, id, Visited(t, key))
  {
    hide Get, Healthy, AllVisits, All, Distinct;
    var ks := if IsEmpty(key) then AllVisits(t.root) else Visits(t.root, key.value[0], key.value);
    forall k | k in ks
      ensures k != []
    {
      VisitedAreLive(t, subs, key, k);
    }
    if IsEmpty(key) {
      AllIsGathered(t.root, 0);
    } else {
      OfferedIsGathered(t.root, 0, key.value[0], key.value);
    }
    NothingIsDistinct();
    OfferHas([], t.matchingAll);
    OfferGathered(t, subs, Offer([], t.matchingAll), ks, id);
    OfferTakesOver([], t.matchingAll, id);
    AgreesAt(t, subs, Sub([], id));
    LatestAppend(subs, id, [[]], ks);
    LatestOfOne(subs, id, []);
  }

  lemma LatestOfOne(subs: Registry, id: string, k: Path)
    ensures Latest(subs, id, [k]) == if Sub(k, id) in subs then Some(subs[Sub(k, id)]) else None
  {
    assert [k][..0] == [];
  }

  lemma NothingIsDistinct()
    ensures Distinct([]) && forall id :: Get([], id) == None
  {
  }

  /** The same after every run, in terms of the registry of the run and the order of the visits. */
  lemma RunIsLatest(ops: seq<Op>, key: Key, id: string)
    requires AllowedRun(EmptyTree(), ops) && ValidKey(key)
    ensures Get(Lookup(Run(EmptyTree(), ops), key), id) ==
      Latest(Registered(map[], ops), id, Visited(Run(EmptyTree(), ops), key))
  {
    EmptyAgrees();
    RunAgrees(EmptyTree(), map[], ops);
    LookupIsLatest(Run(EmptyTree(), ops), Registered(map[], ops), key, id);
  }

  // ----- without looking at the tree: the key that is literal where the others have `*` -----

  /** Where the two keys first differ, `k` has `*` and `w` a literal fragment. */
  predicate IsOvertake(w: Path, k: Path, i: int) {
    0 <= i < |w| && i < |k| && w[..i] == k[..i] && k[i] == "*" && !IsWild(w[i])
  }

  ghost predicate Overtakes(w: Path, k: Path) {
    exists i :: IsOvertake(w, k, i)
  }

  lemma OvertakesBelow(f: string, w: Path, k: Path)
    requires Overtakes(w, k)
    ensures Overtakes([f] + w, [f] + k)
  {
    var i :| IsOvertake(w, k, i);
    assert ([f] + w)[..i + 1] == [f] + w[..i] && ([f] + k)[..i + 1] == [f] + k[..i];
    assert IsOvertake([f] + w, [f] + k, i + 1);
  }

  lemma OvertakesHere(f: string, w: Path, k: Path)
    requires !IsWild(f)
    ensures Overtakes([f] + w, ["*"] + k)
  {
    assert IsOvertake([f] + w, ["*"] + k, 0);
  }

  ghost predicate AllOvertake(ws: seq<Path>, k: Path) {
    forall w <- ws :: Overtakes(w, k)
  }

  lemma AllOvertakeBelow(f: string, ws: seq<Path>, k: Path)
    requires AllOvertake(ws, k)
    ensures AllOvertake(Under(f, ws), [f] + k)
  {
    forall w | w in Under(f, ws)
      ensures Overtakes(w, [f] + k)
    {
      InUnder(f, ws, w);
      OvertakesBelow(f, w[1..], k);
      assert [f] + w[1..] == w;
    }
  }

  lemma AllOvertakeHere(f: string, ws: seq<Path>, k: Path)
    requires !IsWild(f)
    ensures AllOvertake(Under(f, ws), ["*"] + k)
  {
    forall w | w in Under(f, ws)
      ensures Overtakes(w, ["*"] + k)
    {
      InUnder(f, ws, w);
      OvertakesHere(f, w[1..], k);
      assert [f] + w[1..] == w;
    }
  }

  lemma SameLength(k: Path, q: Path)
    requires Matches(k, q)
    ensures |k| == |q|
  {
  }

  // The three parts of the visits where the query has no wildcards.

  function SharpPart(n: Node): seq<Path> {
    if n.sharp.Some? then AllVisits(n) else []
  }

  function StarPart(n: Node, q: Path): seq<Path>
    requires q != []
  {
    if n.star.Some? then Under("*", Visits(n.star.value, q[0], q[1..])) else []
  }

  function LiteralPart(n: Node, q: Path): seq<Path>
    requires q != []
  {
    var c := ChildIn(n.children, q[0]);
    if c.Some? then Under(q[0], Visits(c.value, q[0], q[1..])) else []
  }

  lemma VisitsInParts(n: Node, tested: string, q: Path)
    requires q != [] && !IsWild(tested)
    ensures Visits(n, tested, q) == SharpPart(n) + StarPart(n, q) + LiteralPart(n, q)
  {
  }

  /** A part that has the match in it, one level up. */
  lemma MatchBelow(f: string, ks: seq<Path>, a: seq<Path>, k: Path, b: seq<Path>)
    requires ks == a + [k] + b && AllOvertake(b, k)
    ensures Under(f, ks) == Under(f, a) + [[f] + k] + Under(f, b) && AllOvertake(Under(f, b), [f] + k)
  {
    AllOvertakeBelow(f, b, k);
  }

  lemma AllOvertakeBoth(a: seq<Path>, b: seq<Path>, k: Path)
    requires AllOvertake(a, k) && AllOvertake(b, k)
    ensures AllOvertake(a + b, k)
  {
  }

  /** After the last visit of a key that matches, only keys are visited that are literal where that one has its `*`. */
  lemma {:induction false} AfterTheMatch(n: Node, depth: nat, tested: string, q: Path, k: Path) returns (pre: seq<Path>, post: seq<Path>)
    requires Healthy(n, depth) && !IsWild(tested) && WildFree(q) && Matches(k, q) && PeersAt(n, k) != []
    ensures Visits(n, tested, q) == pre + [k] + post && AllOvertake(post, k)
    decreases |q|
  {
    hide Healthy, AllVisits, Matches, Overtakes, Visits, PeersAt, Under, SharpPart;
    SameLength(k, q);
    if q == [] {
      pre, post := [], [];
      NoVisits(n, tested, k);
    } else {
      MatchesStep(k, q);
      assert k == [k[0]] + k[1..];
      VisitsInParts(n, tested, q);
      PeersBelow(n, depth, k);
      var c := Child(n, k[0]).value;
      pre, post := AfterTheMatch(c, depth + 1, q[0], q[1..], k[1..]);
      MatchBelow(k[0], Visits(c, q[0], q[1..]), pre, k[1..], post);
      if k[0] == "*" {
        LiteralsOvertake(n, q, k);
        AllOvertakeBoth(Under("*", post), LiteralPart(n, q), k);
        pre, post := SharpPart(n) + Under("*", pre), Under("*", post) + LiteralPart(n, q);
      } else {
        pre, post := SharpPart(n) + StarPart(n, q) + Under(k[0], pre), Under(k[0], post);
      }
    }
  }

  lemma NoVisits(n: Node, tested: string, k: Path)
    requires k == [] && PeersAt(n, k) != []
    ensures Visits(n, tested, []) == [k]
  {
  }

  lemma PeersBelow(n: Node, depth: nat, k: Path)
    requires Healthy(n, depth) && k != [] && PeersAt(n, k) != []
    ensures Child(n, k[0]).Some? && PeersAt(Child(n, k[0]).value, k[1..]) != [] && Healthy(Child(n, k[0]).value, depth + 1)
  {
    ChildIsHealthy(n, depth, k[0]);
  }

  lemma LiteralsOvertake(n: Node, q: Path, k: Path)
    requires q != [] && WildFree(q) && k != [] && k[0] == "*"
    ensures AllOvertake(LiteralPart(n, q), k)
  {
    assert ["*"] + k[1..] == k;
    var c := ChildIn(n.children, q[0]);
    if c.Some? {
      AllOvertakeHere(q[0], Visits(c.value, q[0], q[1..]), k[1..]);
    }
  }

  lemma {:induction false} LatestOfNone(subs: Registry, id: string, ks: seq<Path>)
    requires forall k <- ks :: Sub(k, id) !in subs
    ensures Latest(subs, id, ks) == None
    decreases |ks|
  {
    if ks == [] {
    } else {
      LatestOfNone(subs, id, ks[..|ks| - 1]);
    }
  }

  /** A peer is returned in the version under a key that matches the query, unless another of its routed keys is literal where that
      one has its first `*` that they do not share. So a literal fragment wins over `*`, and any match over the empty key and over
      what only a `#` brings in, in whatever order the subscriptions came. */
  lemma MostSpecificWins(ops: seq<Op>, s: Sub, q: Path)
    requires AllowedRun(EmptyTree(), ops) && q != [] && WildFree(q)
    requires s in Registered(map[], ops) && Matches(s.key, q)
    requires forall w :: Routed(Registered(map[], ops), w, q) && w.id == s.id ==> !Overtakes(w.key, s.key)
    ensures Get(Lookup(Run(EmptyTree(), ops), Some(q)), s.id) == Some(Registered(map[], ops)[s])
  {
    hide Healthy, Get, Latest, Matches, Visits, PeersAt, Lookup, Overtakes, Routes, WildsLast;
    var t, subs := Run(EmptyTree(), ops), Registered(map[], ops);
    EmptyAgrees();
    RunAgrees(EmptyTree(), map[], ops);
    LookupIsLatest(t, subs, Some(q), s.id);
    SubIsStored(t, subs, s, q);
    var pre, post := AfterTheMatch(t.root, 0, q[0], q, s.key);
    WildcardFree(q[0], q);
    forall k | k in post
      ensures Sub(k, s.id) !in subs
    {
      assert k in Visits(t.root, q[0], q);
      VisitedAreRouted(t, subs, q, k);
      VisitedAreLive(t, subs, Some(q), k);
      assert Overtakes(k, s.key);
      assert Sub(k, s.id) in subs ==> Routed(subs, Sub(k, s.id), q);
    }
    assert Visited(t, Some(q)) == ([[]] + pre) + [s.key] + post;
    LatestOfNone(subs, s.id, post);
    LatestAppend(subs, s.id, [[]] + pre + [s.key], post);
    LatestAppend(subs, s.id, [[]] + pre, [s.key]);
    LatestOfOne(subs, s.id, s.key);
  }

  lemma SubIsStored(t: Tree, subs: Registry, s: Sub, q: Path)
    requires Agrees(t, subs) && s in subs && Matches(s.key, q) && q != []
    ensures s.key != [] && PeersAt(t.root, s.key) != []
  {
    AgreesAt(t, subs, s);
  }

  function Single(p: Peer, f: string): Node {
    Node(f, 0, [p], None, None, [])
  }

  lemma AddOne(t: Tree, p: Peer, f: string)
    requires Child(t.root, f).None? && f != "#" && |t.root.children| == 0
    ensures var op := Subscribing(p, Some([f]));
      && Allowed(t, op)
      && Apply(t, op) == t.(root := if f == "*" then t.root.(star := Some(Single(p, f))) else t.root.(children := [Single(p, f)]))
  {
    assert [f][1..] == [];
    assert Add(Fresh(f, 0), p, [], 1) == Single(p, f);
  }

  lemma LastStep(t: Tree, subs: Registry, op: Op)
    requires Allowed(t, op)
    ensures AllowedRun(t, [op]) && Run(t, [op]) == Apply(t, op) && Registered(subs, [op]) == Register(subs, op)
  {
    hide Apply, Register, InLastBuckets, Walkable, SparesBuckets;
    assert [op][1..] == [];
  }

  lemma RunOfTwo(t: Tree, subs: Registry, a: Op, b: Op)
    requires Allowed(t, a) && Allowed(Apply(t, a), b)
    ensures AllowedRun(t, [a, b]) && Run(t, [a, b]) == Apply(Apply(t, a), b)
    ensures Registered(subs, [a, b]) == Register(Register(subs, a), b)
  {
    hide Apply, Register, InLastBuckets, Walkable, SparesBuckets;
    assert [a, b][1..] == [b];
    LastStep(Apply(t, a), Register(subs, a), b);
  }

  /** A peer that first subscribes to `*` under one endpoint and then to `a` under another is returned with the second one. */
  lemma LiteralOverStar()
    ensures var old', new' := Peer("p", "tcp://old", true, true), Peer("p", "tcp://new", true, true);
      var ops := [Subscribing(old', Some(["*"])), Subscribing(new', Some(["a"]))];
      AllowedRun(EmptyTree(), ops) && Get(Lookup(Run(EmptyTree(), ops), Some(["a"])), "p") == Some(new')
  {
    hide Lookup, Allowed, Apply, Overtakes;
    var old', new' := Peer("p", "tcp://old", true, true), Peer("p", "tcp://new", true, true);
    var star, a := Subscribing(old', Some(["*"])), Subscribing(new', Some(["a"]));
    AddOne(EmptyTree(), old', "*");
    AddOne(Apply(EmptyTree(), star), new', "a");
    RunOfTwo(EmptyTree(), map[], star, a);
    var subs := Registered(map[], [star, a]);
    assert subs == map[Sub(["*"], "p") := old', Sub(["a"], "p") := new'];
    NothingOvertakesLiterals(["a"]);
    MostSpecificWins([star, a], Sub(["a"], "p"), ["a"]);
  }

  lemma NothingOvertakesLiterals(k: Path)
    requires "*" !in k
    ensures forall w :: !Overtakes(w, k)
  {
    forall w
      ensures !Overtakes(w, k)
    {
      forall i | 0 <= i < |k|
        ensures !IsOvertake(w, k, i)
      {
        assert k[i] in k;
      }
    }
  }

  // ----- lookups with the empty key -----

  /** Where `offer_all` has the subtree among those of one node. */
  function Rank(f: string): nat {
    if f == "#" then 0 else if f == "*" then 1 else 2
  }

  /** The key goes on where `k` ends, or has a fragment where the two first differ that does not come before that of `k`. */
  predicate IsLater(w: Path, k: Path, i: int) {
    0 <= i < |w| && i <= |k| && w[..i] == k[..i] && (i == |k| || (w[i] != k[i] && Rank(w[i]) >= Rank(k[i])))
  }

  ghost predicate Later(w: Path, k: Path) {
    exists i :: IsLater(w, k, i)
  }

  ghost predicate AllLater(ws: seq<Path>, k: Path) {
    forall w <- ws :: Later(w, k)
  }

  lemma LaterBelow(f: string, w: Path, k: Path)
    requires Later(w, k)
    ensures Later([f] + w, [f] + k)
  {
    var i :| IsLater(w, k, i);
    assert ([f] + w)[..i + 1] == [f] + w[..i] && ([f] + k)[..i + 1] == [f] + k[..i];
    assert IsLater([f] + w, [f] + k, i + 1);
  }

  lemma AllLaterBelow(f: string, ks: seq<Path>, a: seq<Path>, k: Path, b: seq<Path>)
    requires ks == a + [k] + b && AllLater(b, k)
    ensures Under(f, ks) == Under(f, a) + [[f] + k] + Under(f, b) && AllLater(Under(f, b), [f] + k)
  {
    forall w | w in Under(f, b)
      ensures Later(w, [f] + k)
    {
      InUnder(f, b, w);
      LaterBelow(f, w[1..], k);
      assert [f] + w[1..] == w;
    }
  }

  lemma LaterHere(f: string, ks: seq<Path>, k: Path)
    requires k == [] || (f != k[0] && Rank(f) >= Rank(k[0]))
    ensures AllLater(Under(f, ks), k)
  {
    forall w | w in Under(f, ks)
      ensures Later(w, k)
    {
      InUnder(f, ks, w);
      assert IsLater(w, k, 0);
    }
  }

  lemma {:induction false} ChildrenLater(ns: seq<Node>, k: Path)
    requires forall c <- ns :: !IsWild(c.fragment) && (k == [] || c.fragment != k[0])
    ensures AllLater(VisitsIn(ns), k)
    decreases ns
  {
    hide AllVisits, Later, Under;
    if ns == [] {
    } else {
      assert ns[0] in ns;
      LaterHere(ns[0].fragment, AllVisits(ns[0]), k);
      ChildrenLater(ns[1..], k);
    }
  }

  lemma {:induction false} VisitsInAppend(a: seq<Node>, b: seq<Node>)
    ensures VisitsIn(a + b) == VisitsIn(a) + VisitsIn(b)
    decreases a
  {
    hide AllVisits, Under;
    if a == [] {
      assert a + b == b;
    } else {
      assert (a + b)[0] == a[0] && (a + b)[1..] == a[1..] + b;
      VisitsInAppend(a[1..], b);
    }
  }

  lemma OtherChildren(n: Node, depth: nat, f: string)
    requires Healthy(n, depth) && !IsWild(f) && Child(n, f).Some?
    ensures Find(n.children, f) < |n.children| && Child(n, f) == Some(n.children[Find(n.children, f)])
    ensures forall c <- n.children[Find(n.children, f) + 1..] :: !IsWild(c.fragment) && c.fragment != f
    ensures Child(n, f).value.fragment == f
  {
    hide HealthyChild;
  }

  /** The visits of the children, taken apart at one of them. */
  lemma VisitsAround(n: Node, depth: nat, k: Path) returns (before: seq<Path>, after: seq<Path>)
    requires Healthy(n, depth) && k != [] && !IsWild(k[0]) && Child(n, k[0]).Some?
    ensures VisitsIn(n.children) == before + Under(k[0], AllVisits(Child(n, k[0]).value)) + after && AllLater(after, k)
  {
    hide AllVisits, AllLater, Under, Healthy, Child, Find, IsWild;
    OtherChildren(n, depth, k[0]);
    var ns, i := n.children, Find(n.children, k[0]);
    var tail := [ns[i]] + ns[i + 1..];
    assert ns == ns[..i] + tail && tail[1..] == ns[i + 1..];
    VisitsInAppend(ns[..i], tail);
    before, after := VisitsIn(ns[..i]), VisitsIn(ns[i + 1..]);
    ChildrenLater(ns[i + 1..], k);
  }

  /** After the visit of a key, `offer_all` visits only later ones. */
  lemma {:induction false} AfterInAll(n: Node, depth: nat, k: Path) returns (pre: seq<Path>, post: seq<Path>)
    requires Healthy(n, depth) && PeersAt(n, k) != []
    ensures AllVisits(n) == pre + [k] + post && AllLater(post, k)
    decreases |k|
  {
    hide Healthy, Later, AllLater, Under, VisitsIn, VisitsOf, AllVisits, PeersAt, Child;
    var sharps, stars, literals := VisitsOf(n.sharp), VisitsOf(n.star), VisitsIn(n.children);
    AllVisitsInParts(n);
    OthersLater(n, depth, k);
    if k == [] {
      pre, post := [], sharps + stars + literals;
      HereIs(n, k);
      AllLaterBoth(sharps, stars, k);
      AllLaterBoth(sharps + stars, literals, k);
    } else {
      PeersBelow(n, depth, k);
      WildChildren(n);
      var c := Child(n, k[0]).value;
      pre, post := AfterInAll(c, depth + 1, k[1..]);
      AllLaterBelow(k[0], AllVisits(c), pre, k[1..], post);
      assert [k[0]] + k[1..] == k;
      if k[0] == "#" {
        AllLaterBoth(Under("#", post), stars, k);
        AllLaterBoth(Under("#", post) + stars, literals, k);
        pre, post := Here(n) + Under("#", pre), Under("#", post) + stars + literals;
      } else if k[0] == "*" {
        AllLaterBoth(Under("*", post), literals, k);
        pre, post := Here(n) + sharps + Under("*", pre), Under("*", post) + literals;
      } else {
        var before, after := VisitsAround(n, depth, k);
        AllLaterBoth(Under(k[0], post), after, k);
        pre, post := Here(n) + sharps + stars + before + Under(k[0], pre), Under(k[0], post) + after;
      }
    }
  }

  lemma HereIs(n: Node, k: Path)
    requires k == [] && PeersAt(n, k) != []
    ensures Here(n) == [k]
  {
  }

  lemma WildChildren(n: Node)
    ensures Child(n, "#") == n.sharp && Child(n, "*") == n.star
  {
  }

  lemma AllLaterBoth(a: seq<Path>, b: seq<Path>, k: Path)
    requires AllLater(a, k) && AllLater(b, k)
    ensures AllLater(a + b, k)
  {
  }

  lemma AllVisitsInParts(n: Node)
    ensures AllVisits(n) == Here(n) + VisitsOf(n.sharp) + VisitsOf(n.star) + VisitsIn(n.children)
  {
  }

  lemma OthersLater(n: Node, depth: nat, k: Path)
    requires Healthy(n, depth)
    ensures k == [] ==> AllLater(VisitsOf(n.sharp), k)
    ensures k == [] || k[0] == "#" ==> AllLater(VisitsOf(n.star), k)
    ensures k == [] || IsWild(k[0]) ==> AllLater(VisitsIn(n.children), k)
    ensures n.sharp.Some? ==> VisitsOf(n.sharp) == Under("#", AllVisits(n.sharp.value))
    ensures n.star.Some? ==> VisitsOf(n.star) == Under("*", AllVisits(n.star.value))
  {
    hide AllVisits, Later, Under, HealthyChild;
    if n.sharp.Some? && k == [] {
      LaterHere("#", AllVisits(n.sharp.value), k);
    }
    if n.star.Some? && (k == [] || k[0] == "#") {
      LaterHere("*", AllVisits(n.star.value), k);
    }
    if k == [] || IsWild(k[0]) {
      ChildrenLater(n.children, k);
    }
  }

  /** A lookup with the empty key returns a peer in the version under the subscription that no other of its own is later than: an
      extension of a key is later than the key, and `*` later than `#`, and a literal fragment later than both. */
  lemma LastOfAllWins(ops: seq<Op>, s: Sub, key: Key)
    requires AllowedRun(EmptyTree(), ops) && IsEmpty(key) && s in Registered(map[], ops)
    requires forall w <- Registered(map[], ops) :: w.id == s.id ==> !Later(w.key, s.key)
    ensures Get(Lookup(Run(EmptyTree(), ops), key), s.id) == Some(Registered(map[], ops)[s])
  {
    hide Healthy, Get, Latest, AllVisits, PeersAt, Lookup, Later;
    var t, subs := Run(EmptyTree(), ops), Registered(map[], ops);
    EmptyAgrees();
    RunAgrees(EmptyTree(), map[], ops);
    LookupIsLatest(t, subs, key, s.id);
    if s.key == [] {
      OnlyEmptyKey(t, subs, s, key);
    } else {
      AgreesAt(t, subs, s);
      StoredSome(t, s);
      var pre, post := AfterInAll(t.root, 0, s.key);
      forall k | k in post
        ensures Sub(k, s.id) !in subs
      {
        assert Later(k, s.key);
        assert Sub(k, s.id) in subs ==> Sub(k, s.id).id == s.id;
      }
      assert Visited(t, key) == ([[]] + pre) + [s.key] + post;
      LatestOfNone(subs, s.id, post);
      LatestAppend(subs, s.id, [[]] + pre + [s.key], post);
      LatestAppend(subs, s.id, [[]] + pre, [s.key]);
      LatestOfOne(subs, s.id, s.key);
    }
  }

  lemma StoredSome(t: Tree, s: Sub)
    requires s.key != [] && Get(StoredAt(t, s.key), s.id).Some?
    ensures PeersAt(t.root, s.key) != []
  {
  }

  lemma OnlyEmptyKey(t: Tree, subs: Registry, s: Sub, key: Key)
    requires Sound(t) && Agrees(t, subs) && IsEmpty(key) && s in subs && s.key == []
    requires forall w <- subs :: w.id == s.id ==> !Later(w.key, s.key)
    ensures Latest(subs, s.id, Visited(t, key)) == Some(subs[s])
  {
    hide Healthy, Get, Latest, AllVisits, PeersAt;
    forall k | k in AllVisits(t.root)
      ensures Sub(k, s.id) !in subs
    {
      VisitedAreLive(t, subs, key, k);
      assert IsLater(k, [], 0);
      assert Sub(k, s.id) in subs ==> Sub(k, s.id).id == s.id;
    }
    LatestOfNone(subs, s.id, AllVisits(t.root));
    LatestAppend(subs, s.id, [[]], AllVisits(t.root));
    LatestOfOne(subs, s.id, []);
  }
}
