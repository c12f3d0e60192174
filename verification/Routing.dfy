/** What a lookup in the subscription tree returns, against the flat registry of subscriptions. */
module Routing {
  import opened Options
  import opened PeerList
  import opened Trie

  // ----- the lookup -----

  /** What `collect` offers below a node, in its order. `tested` is the query's fragment at the node's own index: the code
      tests that one for wildcards, and compares literal children with the fragment after it. */
  function Offered(n: Node, tested: string, q: Path): seq<Peer>
    decreases |q|
  {
    if q == [] then n.peers
    else
      (if n.sharp.Some? then All(n) else [])
      + (if n.star.Some? then Offered(n.star.value, q[0], q[1..]) else [])
      + (match Tested(n, tested, q[0])
         case None => []
         case Some(c) => Offered(c, q[0], q[1..]))
  }

  /** The child that the lookup's own search gives. */
  function Tested(n: Node, tested: string, f: string): Option<Node> {
    if IsWild(tested) then Child(n, tested) else ChildIn(n.children, f)
  }

  /** The wildcards of the query, if any, are its last fragments. `before` is the fragment before them. */
  predicate WildsLast(before: string, q: Path)
    decreases |q|
  {
    q == [] || ((IsWild(before) ==> IsWild(q[0])) && WildsLast(q[0], q[1..]))
  }

  /** The keys with a peer below the node. */
  ghost function LiveKeys(n: Node): iset<Path> {
    iset k: Path | PeersAt(n, k) != []
  }

  // ----- what should be routed -----

  /** The subscription key matches the query fragment by fragment. */
  predicate Matches(k: Path, q: Path) {
    |k| == |q| && forall i :: 0 <= i < |k| ==> k[i] == "*" || k[i] == q[i]
  }

  /** A live key goes on with `#` after the prefix. */
  ghost predicate SharpAfter(live: iset<Path>, prefix: Path) {
    exists k :: k in live && |prefix| < |k| && k[..|prefix|] == prefix && k[|prefix|] == "#"
  }

  /** The keys the tree offers for a query: those that match it, and all those below a prefix of it that some live key
      extends with `#`. */
  ghost predicate Routes(live: iset<Path>, k: Path, q: Path) {
    Matches(k, q) || HasSharpPoint(live, k, q)
  }

  ghost predicate HasSharpPoint(live: iset<Path>, k: Path, q: Path) {
    exists j :: IsSharpPoint(live, k, q, j)
  }

  ghost predicate IsSharpPoint(live: iset<Path>, k: Path, q: Path, j: int) {
    0 <= j < |q| && j <= |k| && Matches(k[..j], q[..j]) && SharpAfter(live, k[..j])
  }

  // ----- routes on the tree -----

  /** The same on the tree itself. */
  predicate Leads(n: Node, k: Path, q: Path)
    decreases |q|
  {
    if q == [] then
      k == []
    else (
      || n.sharp.Some?
      || (k != [] && (k[0] == "*" || k[0] == q[0]) && Child(n, k[0]).Some? && Leads(Child(n, k[0]).value, k[1..], q[1..]))
    )
  }

  /** `offer_all` reaches exactly what is stored under some key. */
  lemma {:induction false} AllIsStored(n: Node, depth: nat, p: Peer) returns (k: Path)
    requires Healthy(n, depth) && p in All(n)
    ensures p in PeersAt(n, k)
    decreases n
  {
    ChildIsHealthy(n, depth, "#");
    ChildIsHealthy(n, depth, "*");
    var c: Node;
    if p in n.peers {
      return [];
    } else if p in AllOf(n.sharp) {
      c := n.sharp.value;
    } else if p in AllOf(n.star) {
      c := n.star.value;
    } else {
      var i := AllInAt(n.children, p);
      c := n.children[i];
      FindUnique(n.children, i);
    }
    k := AllIsStored(c, depth + 1, p);
    assert ([c.fragment] + k)[1..] == k;
    k := [c.fragment] + k;
  }

  lemma {:induction false} AllInAt(ns: seq<Node>, p: Peer) returns (i: nat)
    requires p in AllIn(ns)
    ensures i < |ns| && p in All(ns[i])
  {
    if p in All(ns[0]) {
      i := 0;
    } else {
      i := AllInAt(ns[1..], p);
      i := i + 1;
    }
  }

  lemma {:induction false} AtAllIn(ns: seq<Node>, i: nat, p: Peer)
    requires i < |ns| && p in All(ns[i])
    ensures p in AllIn(ns)
  {
    if i == 0 {
    } else {
      AtAllIn(ns[1..], i - 1, p);
    }
  }

  lemma {:induction false} StoredIsInAll(n: Node, k: Path, p: Peer)
    requires p in PeersAt(n, k)
    ensures p in All(n)
    decreases |k|
  {
    if k == [] {
    } else {
      StoredIsInAll(Child(n, k[0]).value, k[1..], p);
      if !IsWild(k[0]) {
        AtAllIn(n.children, Find(n.children, k[0]), p);
      }
    }
  }

  /** Whatever is offered is stored under a key that leads there. */
  lemma {:induction false} OfferedLeads(n: Node, depth: nat, tested: string, q: Path, p: Peer) returns (k: Path)
    requires Healthy(n, depth) && p in Offered(n, tested, q)
    ensures p in PeersAt(n, k) && Leads(n, k, q)
    decreases |q|
  {
    k := [];
    if q == [] {
    } else {
      ChildIsHealthy(n, depth, "#");
      ChildIsHealthy(n, depth, "*");
      ChildIsHealthy(n, depth, q[0]);
      if n.sharp.Some? && p in All(n) {
        k := AllIsStored(n, depth, p);
      } else if n.star.Some? && p in Offered(n.star.value, q[0], q[1..]) {
        k := OfferedLeads(n.star.value, depth + 1, q[0], q[1..], p);
        assert (["*"] + k)[1..] == k;
        k := ["*"] + k;
      } else {
        var c := Tested(n, tested, q[0]).value;
        k := OfferedLeads(c, depth + 1, q[0], q[1..], p);
        ChildIsHealthy(n, depth, tested);
        assert ([c.fragment] + k)[1..] == k;
        k := [c.fragment] + k;
      }
    }
  }

  /** What is stored under a key that leads there is offered, when the query's wildcards come last. */
  lemma {:induction false} LeadsOffered(n: Node, tested: string, q: Path, k: Path, p: Peer)
    requires WildsLast(tested, q) && p in PeersAt(n, k) && Leads(n, k, q)
    ensures p in Offered(n, tested, q)
    decreases |q|
  {
    if q == [] {
    } else {
      if n.sharp.Some? {
        StoredIsInAll(n, k, p);
      } else {
        LeadsOffered(Child(n, k[0]).value, q[0], q[1..], k[1..], p);
      }
    }
  }

  lemma StepKey(f: string, k: Path, n: Node)
    requires Child(n, f).Some?
    ensures [f] + k in LiveKeys(n) <==> k in LiveKeys(Child(n, f).value)
  {
    assert ([f] + k)[1..] == k;
  }

  lemma StepSharp(n: Node, f: string, prefix: Path)
    requires Child(n, f).Some?
    ensures SharpAfter(LiveKeys(n), [f] + prefix) <==> SharpAfter(LiveKeys(Child(n, f).value), prefix)
  {
    var c := Child(n, f).value;
    if SharpAfter(LiveKeys(n), [f] + prefix) {
      var k :| k in LiveKeys(n) && |prefix| + 1 < |k| && k[..|prefix| + 1] == [f] + prefix && k[|prefix| + 1] == "#";
      assert k[0] == k[..|prefix| + 1][0] == f && k[1..][..|prefix|] == k[..|prefix| + 1][1..] == prefix;
      assert [f] + k[1..] == k;
      StepKey(f, k[1..], n);
      assert k[1..] in LiveKeys(c) && k[1..][|prefix|] == "#";
    }
    if SharpAfter(LiveKeys(c), prefix) {
      var k :| k in LiveKeys(c) && |prefix| < |k| && k[..|prefix|] == prefix && k[|prefix|] == "#";
      StepKey(f, k, n);
      var w := [f] + k;
      assert w[..|[f] + prefix|] == [f] + prefix && w[|[f] + prefix|] == "#";
    }
  }

  lemma MatchesStep(k: Path, q: Path)
    requires k != [] && q != []
    ensures Matches(k, q) <==> (k[0] == "*" || k[0] == q[0]) && Matches(k[1..], q[1..])
  {
    if (k[0] == "*" || k[0] == q[0]) && Matches(k[1..], q[1..]) {
      forall i | 0 <= i < |k|
        ensures k[i] == "*" || k[i] == q[i]
      {
        if i > 0 {
          assert k[1..][i - 1] == k[i] && q[1..][i - 1] == q[i];
        }
      }
    }
  }

  lemma SharpPointStep(n: Node, k: Path, q: Path, j: nat)
    requires k != [] && q != [] && Child(n, k[0]).Some?
    ensures IsSharpPoint(LiveKeys(n), k, q, j + 1) <==>
      (k[0] == "*" || k[0] == q[0]) && IsSharpPoint(LiveKeys(Child(n, k[0]).value), k[1..], q[1..], j)
  {
    if j < |q| - 1 && j <= |k| - 1 {
      assert k[..j + 1] == [k[0]] + k[1..][..j];
      MatchesStep(k[..j + 1], q[..j + 1]);
      assert k[..j + 1][1..] == k[1..][..j] && q[..j + 1][1..] == q[1..][..j];
      StepSharp(n, k[0], k[1..][..j]);
    }
  }

  /** A `#` child is a live key that goes on with `#` right away. */
  lemma SharpChildIsLive(n: Node, depth: nat)
    requires Healthy(n, depth)
    ensures n.sharp.Some? <==> SharpAfter(LiveKeys(n), [])
  {
    if n.sharp.Some? {
      ChildIsHealthy(n, depth, "#");
      var k := LiveStoresSomething(n.sharp.value, depth + 1);
      StepKey("#", k, n);
      assert (["#"] + k)[..0] == [];
    }
    if SharpAfter(LiveKeys(n), []) {
      var k :| k in LiveKeys(n) && 0 < |k| && k[0] == "#";
      assert PeersAt(n, k) != [];
    }
  }

  /** On a live key, leading there on the tree is being routed there by the set of live keys. */
  lemma {:induction false} LeadsIsRoutes(n: Node, depth: nat, k: Path, q: Path)
    requires Healthy(n, depth) && k in LiveKeys(n)
    ensures Leads(n, k, q) <==> Routes(LiveKeys(n), k, q)
    decreases |q|
  {
    hide SharpAfter, Healthy, Matches;
    if q != [] {
      SharpChildIsLive(n, depth);
      assert k[..0] == [] && q[..0] == [];
      EmptyMatches();
      assert IsSharpPoint(LiveKeys(n), k, q, 0) <==> n.sharp.Some?;
      if k != [] {
        var c := Child(n, k[0]).value;
        ChildIsHealthy(n, depth, k[0]);
        assert [k[0]] + k[1..] == k;
        StepKey(k[0], k[1..], n);
        LeadsIsRoutes(c, depth + 1, k[1..], q[1..]);
        MatchesStep(k, q);
        SharpPointSteps(n, k, q);
      } else {
        NoMatch(k, q);
      }
    } else {
      NoMatch(k, q);
    }
  }

  lemma EmptyMatches()
    ensures Matches([], [])
  {
  }

  lemma NoMatch(k: Path, q: Path)
    requires k == [] || q == []
    ensures Matches(k, q) <==> k == [] && q == []
  {
  }

  lemma SharpPointSteps(n: Node, k: Path, q: Path)
    requires k != [] && q != [] && Child(n, k[0]).Some?
    ensures HasSharpPoint(LiveKeys(n), k, q) <==> (
      || IsSharpPoint(LiveKeys(n), k, q, 0)
      || ((k[0] == "*" || k[0] == q[0]) && HasSharpPoint(LiveKeys(Child(n, k[0]).value), k[1..], q[1..])))
  {
    hide IsSharpPoint;
    var c := Child(n, k[0]).value;
    if j :| IsSharpPoint(LiveKeys(n), k, q, j) {
      SharpPointsAreIndices(LiveKeys(n), k, q, j);
      if j > 0 {
        SharpPointStep(n, k, q, j - 1);
      }
    }
    if j :| IsSharpPoint(LiveKeys(c), k[1..], q[1..], j) {
      SharpPointsAreIndices(LiveKeys(c), k[1..], q[1..], j);
      SharpPointStep(n, k, q, j);
    }
  }

  lemma SharpPointsAreIndices(live: iset<Path>, k: Path, q: Path, j: int)
    requires IsSharpPoint(live, k, q, j)
    ensures j >= 0
  {
  }

  // ----- where removals may walk -----

  /** Some live key starts with the prefix. */
  ghost predicate Starts(live: iset<Path>, prefix: Path) {
    exists k :: k in live && prefix <= k
  }

  /** Every wildcard of the key that the walk can come to is one that the tree has. */
  ghost predicate WildsKnown(live: iset<Path>, k: Path) {
    forall j :: 0 <= j < |k| ==> WildKnownAt(live, k, j)
  }

  ghost predicate WildKnownAt(live: iset<Path>, k: Path, j: nat)
    requires j < |k|
  {
    IsWild(k[j]) && (j == 0 || Starts(live, k[..j])) ==> Starts(live, k[..j + 1])
  }

  lemma ChildIsStarted(n: Node, depth: nat, f: string)
    requires Healthy(n, depth)
    ensures Child(n, f).Some? <==> Starts(LiveKeys(n), [f])
  {
    if Child(n, f).Some? {
      ChildIsHealthy(n, depth, f);
      var k := LiveStoresSomething(Child(n, f).value, depth + 1);
      StepKey(f, k, n);
      assert [f] <= [f] + k;
    }
    if k :| k in LiveKeys(n) && [f] <= k {
      assert k[0] == f;
    }
  }

  lemma StartsStep(n: Node, f: string, prefix: Path)
    requires Child(n, f).Some?
    ensures Starts(LiveKeys(n), [f] + prefix) <==> Starts(LiveKeys(Child(n, f).value), prefix)
  {
    if k :| k in LiveKeys(n) && [f] + prefix <= k {
      assert k[0] == f && [f] + k[1..] == k;
      StepKey(f, k[1..], n);
      assert prefix <= k[1..];
    }
    if k :| k in LiveKeys(Child(n, f).value) && prefix <= k {
      StepKey(f, k, n);
      assert [f] + prefix <= [f] + k;
    }
  }

  /** The walk for a removal meets no missing wildcard child if and only if every wildcard of the key that comes after a prefix
      of some live key is itself part of one. */
  lemma {:induction false} WalkableIffWildsKnown(n: Node, depth: nat, k: Path)
    requires Healthy(n, depth)
    ensures Walkable(n, k) <==> WildsKnown(LiveKeys(n), k)
    decreases |k|
  {
    hide Healthy, Starts, LiveKeys;
    if k == [] {
    } else {
      ChildIsStarted(n, depth, k[0]);
      assert k[..1] == [k[0]];
      if Child(n, k[0]).None? {
        forall j | 0 < j < |k|
          ensures WildKnownAt(LiveKeys(n), k, j)
        {
          LongerStarts(LiveKeys(n), k[..1], k[..j]);
        }
        assert WildsKnown(LiveKeys(n), k) <==> WildKnownAt(LiveKeys(n), k, 0);
      } else {
        var c := Child(n, k[0]).value;
        ChildIsHealthy(n, depth, k[0]);
        WalkableIffWildsKnown(c, depth + 1, k[1..]);
        forall j | 0 <= j <= |k| - 1
          ensures Starts(LiveKeys(n), k[..j + 1]) <==> Starts(LiveKeys(c), k[1..][..j])
        {
          assert k[..j + 1] == [k[0]] + k[1..][..j];
          StartsStep(n, k[0], k[1..][..j]);
        }
        KnownStep(LiveKeys(n), LiveKeys(c), k);
      }
    }
  }

  lemma LongerStarts(live: iset<Path>, a: Path, b: Path)
    requires a <= b
    ensures Starts(live, b) ==> Starts(live, a)
  {
  }

  lemma KnownStep(live: iset<Path>, below: iset<Path>, k: Path)
    requires k != [] && Starts(live, k[..1])
    requires forall j :: 0 <= j <= |k| - 1 ==> (Starts(live, k[..j + 1]) <==> Starts(below, k[1..][..j]))
    ensures WildsKnown(live, k) <==> WildsKnown(below, k[1..])
  {
    hide Starts, IsWild;
    forall j | 0 <= j < |k| - 1
      ensures WildKnownAt(live, k, j + 1) <==> WildKnownAt(below, k[1..], j)
    {
      assert k[1..][..0] == [];
      assert k[..0 + 1] == k[..1] && (Starts(live, k[..0 + 1]) <==> Starts(below, k[1..][..0]));
    }
    assert WildKnownAt(live, k, 0);
    if WildsKnown(below, k[1..]) {
      forall j | 0 < j < |k|
        ensures WildKnownAt(live, k, j)
      {
        assert WildKnownAt(below, k[1..], j - 1);
      }
    }
  }

  // ----- where buckets are no concern -----

  /** Enough different literal fragments follow the prefix in the live keys to fill a bucket. */
  ghost predicate Crowded(live: iset<Path>, prefix: Path) {
    exists fs :: IsCrowd(live, prefix, fs)
  }

  ghost predicate IsCrowd(live: iset<Path>, prefix: Path, fs: seq<string>) {
    && |fs| == BUCKET_MAX && Different(fs)
    && forall i :: 0 <= i < |fs| ==> !IsWild(fs[i]) && Starts(live, prefix + [fs[i]])
  }

  predicate Different(fs: seq<string>) {
    forall i, j :: 0 <= i < j < |fs| ==> fs[i] != fs[j]
  }

  /** No prefix of the key that a literal fragment of it follows is crowded. */
  ghost predicate Uncrowded(live: iset<Path>, k: Path) {
    forall j :: 0 <= j < |k| && !IsWild(k[j]) ==> !Crowded(live, k[..j])
  }

  lemma FullIsCrowded(n: Node, depth: nat)
    requires Healthy(n, depth) && |n.children| >= BUCKET_MAX
    ensures Crowded(LiveKeys(n), [])
  {
    hide Starts, LiveKeys;
    var fs := seq(BUCKET_MAX, i requires 0 <= i < BUCKET_MAX => n.children[i].fragment);
    forall i | 0 <= i < BUCKET_MAX
      ensures !IsWild(fs[i]) && Starts(LiveKeys(n), [] + [fs[i]])
    {
      FindUnique(n.children, i);
      ChildIsStarted(n, depth, fs[i]);
      assert [] + [fs[i]] == [fs[i]];
    }
    assert IsCrowd(LiveKeys(n), [], fs);
  }

  lemma CrowdedStep(n: Node, f: string, prefix: Path)
    requires Child(n, f).Some? && Crowded(LiveKeys(Child(n, f).value), prefix)
    ensures Crowded(LiveKeys(n), [f] + prefix)
  {
    hide Starts, LiveKeys;
    var fs :| IsCrowd(LiveKeys(Child(n, f).value), prefix, fs);
    forall i | 0 <= i < |fs|
      ensures Starts(LiveKeys(n), [f] + prefix + [fs[i]])
    {
      assert [f] + prefix + [fs[i]] == [f] + (prefix + [fs[i]]);
      StartsStep(n, f, prefix + [fs[i]]);
    }
    assert IsCrowd(LiveKeys(n), [f] + prefix, fs);
  }

  /** Where no prefix is crowded, adding finds its children and removing spares the buckets. */
  lemma {:induction false} UncrowdedIsFree(n: Node, depth: nat, k: Path, id: string)
    requires Healthy(n, depth) && Uncrowded(LiveKeys(n), k)
    ensures InLastBuckets(n, k) && SparesBuckets(n, id, k)
    decreases |k|
  {
    if k == [] {
    } else {
      hide Healthy, Crowded, LiveKeys, Remove, Prune;
      assert k[..0] == [];
      if |n.children| >= BUCKET_MAX {
        FullIsCrowded(n, depth);
      }
      if Child(n, k[0]).Some? {
        var c := Child(n, k[0]).value;
        ChildIsHealthy(n, depth, k[0]);
        forall j | 0 <= j < |k| - 1 && !IsWild(k[1..][j])
          ensures !Crowded(LiveKeys(c), k[1..][..j])
        {
          assert [k[0]] + k[1..][..j] == k[..j + 1];
          if Crowded(LiveKeys(c), k[1..][..j]) {
            CrowdedStep(n, k[0], k[1..][..j]);
          }
        }
        ChildIsHealthyBelow(n, depth, k[0]);
        UncrowdedIsFree(c, depth + 1, k[1..], id);
      }
    }
  }

  lemma ChildIsHealthyBelow(n: Node, depth: nat, f: string)
    requires Healthy(n, depth) && Child(n, f).Some?
    ensures Healthy(Child(n, f).value, depth + 1)
  {
    ChildIsHealthy(n, depth, f);
  }
}
