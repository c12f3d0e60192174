/** What goes wrong in the subscription tree once the literal children of a node fill a bucket. */
module Buckets {
  import opened Options
  import opened PeerList
  import opened Trie
  import opened Routing
  import opened Subscriptions

  /** Different literal fragments. */
  predicate Literal(fs: seq<string>) {
    Different(fs) && forall i :: 0 <= i < |fs| ==> !IsWild(fs[i])
  }

  /** There are any number of them: `a`, `aa`, and so on. */
  function Names(n: nat): (fs: seq<string>)
    ensures |fs| == n && Literal(fs)
  {
    var fs := seq(n, i requires 0 <= i < n => seq(i + 1, _ => 'a'));
    assert forall i :: 0 <= i < n ==> |fs[i]| == i + 1 && fs[i][0] == 'a';
    fs
  }

  /** One peer subscribes to each of the fragments. */
  function Singles(p: Peer, fs: seq<string>): seq<Op> {
    seq(|fs|, i requires 0 <= i < |fs| => Subscribing(p, Some([fs[i]])))
  }

  function Leaf(p: Peer, f: string): Node {
    Node(f, 0, [p], None, None, [])
  }

  function Leaves(p: Peer, fs: seq<string>): (ns: seq<Node>)
    ensures |ns| == |fs| && forall i :: 0 <= i < |ns| ==> ns[i] == Leaf(p, fs[i])
  {
    seq(|fs|, i requires 0 <= i < |fs| => Leaf(p, fs[i]))
  }

  function Grown(p: Peer, fs: seq<string>): Tree {
    Tree(Fresh("", 0).(children := Leaves(p, fs)), [])
  }

  lemma FindLeaf(p: Peer, fs: seq<string>, i: nat)
    requires Literal(fs) && i < |fs|
    ensures Find(Leaves(p, fs), fs[i]) == i
  {
    FindFirst(Leaves(p, fs), fs[i], i);
  }

  lemma GrowByOne(p: Peer, fs: seq<string>, i: nat)
    requires Literal(fs) && i < |fs|
    ensures var t, op := Grown(p, fs[..i]), Subscribing(p, Some([fs[i]]));
      Allowed(t, op) && Apply(t, op) == Grown(p, fs[..i + 1])
  {
    hide Find;
    var f, ns := fs[i], Leaves(p, fs[..i]);
    FindFirst(ns, f, i);
    PlaceIsFind(ns, f);
    assert [f][1..] == [];
    assert Add(Fresh(f, 0), p, [], 1) == Leaf(p, f);
    assert ns + [Leaf(p, f)] == Leaves(p, fs[..i + 1]);
  }

  /** Children under different fragments are no trouble, however many buckets they fill. */
  lemma {:induction false} GrowAll(p: Peer, fs: seq<string>, i: nat)
    requires Literal(fs) && i <= |fs|
    ensures AllowedRun(Grown(p, fs[..i]), Singles(p, fs)[i..])
    ensures Run(Grown(p, fs[..i]), Singles(p, fs)[i..]) == Grown(p, fs)
    decreases |fs| - i
  {
    if i == |fs| {
      assert fs[..i] == fs;
    } else {
      hide Allowed, Apply, Grown;
      var rest := Singles(p, fs)[i..];
      assert rest[0] == Subscribing(p, Some([fs[i]])) && rest[1..] == Singles(p, fs)[i + 1..];
      GrowByOne(p, fs, i);
      GrowAll(p, fs, i + 1);
    }
  }

  lemma RunSingles(p: Peer, fs: seq<string>)
    requires Literal(fs)
    ensures AllowedRun(EmptyTree(), Singles(p, fs)) && Run(EmptyTree(), Singles(p, fs)) == Grown(p, fs)
  {
    GrowAll(p, fs, 0);
    assert fs[..0] == [] && Singles(p, fs)[0..] == Singles(p, fs);
    assert Leaves(p, []) == [];
    assert Grown(p, []) == EmptyTree();
  }

  /** The registry has what the operations of the run put there. */
  lemma {:induction false} SinglesStay(subs: Registry, p: Peer, fs: seq<string>, i: nat, s: Sub)
    requires Literal(fs) && i <= |fs| && s.id == p.id && (s in subs || exists j :: i <= j < |fs| && s.key == [fs[j]])
    requires s in subs ==> subs[s] == p
    ensures s in Registered(subs, Singles(p, fs)[i..]) && Registered(subs, Singles(p, fs)[i..])[s] == p
    decreases |fs| - i
  {
    if i == |fs| {
      assert Singles(p, fs)[i..] == [];
    } else {
      var rest := Singles(p, fs)[i..];
      assert rest[0] == Subscribing(p, Some([fs[i]])) && rest[1..] == Singles(p, fs)[i + 1..];
      assert Flat(Some([fs[i]])) == [fs[i]];
      SinglesStay(Register(subs, rest[0]), p, fs, i + 1, s);
    }
  }

  /** What a lookup of one fragment gets from a grown tree, whatever comes behind its child. */
  lemma LookupOfOne(t: Tree, p: Peer, f: string)
    requires t.matchingAll == [] && t.root.sharp == None && t.root.star == None && !IsWild(f)
    requires ChildIn(t.root.children, f) == Some(Leaf(p, f))
    ensures Lookup(t, Some([f])) == [p]
  {
    assert [f][1..] == [];
    assert Offered(Leaf(p, f), f, []) == [p];
    assert Offered(t.root, f, [f]) == [p];
    assert [f][0] != ["#"][0];
    OfferTwice([], [], [p]);
    assert Offer([], [p]) == [p];
  }

  /** Once the children of a node fill a bucket, a subscription to the fragment of one of them is never found again, because it
      is stored in a second node for the fragment. */
  lemma MissedInSecondBucket(p: Peer, q: Peer, fs: seq<string>)
    requires Literal(fs) && |fs| == 32 && p.id != q.id
    ensures AllowedRun(EmptyTree(), Singles(p, fs))
    ensures var t, again, key := Run(EmptyTree(), Singles(p, fs)), Subscribing(q, Some([fs[0]])), [fs[0]];
      && !Allowed(t, again) && !Has(Lookup(Apply(t, again), Some(key)), q.id)
      && Routed(Register(Registered(map[], Singles(p, fs)), again), Sub(key, q.id), key)
  {
    RunSingles(p, fs);
    var t, f, subs := Grown(p, fs), fs[0], Registered(map[], Singles(p, fs));
    var again, key := Subscribing(q, Some([f])), [f];
    FindLeaf(p, fs, 0);
    FindBehind(t.root.children, Leaf(q, f), f);
    PlacedBehind(t.root, f, Leaf(q, f), f);
    assert [f][1..] == [];
    assert Add(Fresh(f, 0), q, [], 1) == Leaf(q, f);
    LookupOfOne(Apply(t, again), p, f);
    assert Sub(key, q.id) in Register(subs, again);
    assert Matches(key, key);
  }

  /** That happens: subscriptions to `a`, `aa`, and so on fill the bucket of the root, and then the one of `q` to `a` is lost. */
  lemma MissedUnderNames(p: Peer, q: Peer)
    requires p.id != q.id
    ensures var fs := Names(32);
      && AllowedRun(EmptyTree(), Singles(p, fs))
      && !Has(Lookup(Apply(Run(EmptyTree(), Singles(p, fs)), Subscribing(q, Some([fs[0]]))), Some([fs[0]])), q.id)
  {
    MissedInSecondBucket(p, q, Names(32));
  }

  lemma RemovedLeaf(p: Peer, fs: seq<string>, i: nat)
    requires Literal(fs) && i < |fs|
    ensures var t, op := Grown(p, fs), Unsubscribing(p.id, Some([fs[i]]));
      && ValidKey(op.key) && (Allowed(t, op) <==> Removable(Leaves(p, fs), i))
      && Apply(t, op) == t.(root := t.root.(children := TakenOut(Leaves(p, fs), i)))
  {
    hide Find;
    var f := fs[i];
    FindLeaf(p, fs, i);
    assert [f][1..] == [] && [f][0] != ["#"][0];
    assert Remove(Leaf(p, f), p.id, []) == Fresh(f, 0);
    NothingAtFresh(f, 0, []);
    var n := Grown(p, fs).root;
    assert Child(n, f) == Some(Leaf(p, f)) && [f][1..] == [];
    assert Walkable(Leaf(p, f), []) && Walkable(n, [f]);
    assert SparesBuckets(Leaf(p, f), p.id, []);
    assert SparesBuckets(n, p.id, [f]) <==> MayLose(n, f, None);
  }

  /** Of the children of the root, the one that a removal takes out must be in the last bucket, that bucket not full, and not its
      only child unless there is no other bucket. */
  lemma RemovalAllowedInLastBucket(p: Peer, fs: seq<string>, i: nat)
    requires Literal(fs) && i < |fs|
    ensures AllowedRun(EmptyTree(), Singles(p, fs))
    ensures Allowed(Run(EmptyTree(), Singles(p, fs)), Unsubscribing(p.id, Some([fs[i]]))) <==>
      |fs| / 32 * 32 <= i && (|fs| % 32 == 1 ==> |fs| == 1)
  {
    hide Allowed, Run, AllowedRun;
    RunSingles(p, fs);
    RemovedLeaf(p, fs, i);
  }

  /** So none of 32 names may be removed from a full bucket, and not the only one of a third bucket. */
  lemma FullAndLaterBuckets(p: Peer, i: nat)
    requires i < 32
    ensures var fs := Names(32);
      AllowedRun(EmptyTree(), Singles(p, fs)) && !Allowed(Run(EmptyTree(), Singles(p, fs)), Unsubscribing(p.id, Some([fs[i]])))
    ensures var fs := Names(65);
      && AllowedRun(EmptyTree(), Singles(p, fs))
      && !Allowed(Run(EmptyTree(), Singles(p, fs)), Unsubscribing(p.id, Some([fs[64]])))
  {
    hide Allowed, Run, AllowedRun;
    RemovalAllowedInLastBucket(p, Names(32), i);
    RemovalAllowedInLastBucket(p, Names(65), 64);
  }

  /** Removing the only child of the second bucket takes the whole first bucket with it. */
  lemma SecondBucketTakesFirst(p: Peer, fs: seq<string>)
    requires Literal(fs) && |fs| == 33
    ensures AllowedRun(EmptyTree(), Singles(p, fs))
    ensures var t, last, key := Run(EmptyTree(), Singles(p, fs)), Unsubscribing(p.id, Some([fs[32]])), [fs[0]];
      && !Allowed(t, last) && Lookup(Apply(t, last), Some(key)) == []
      && Routed(Register(Registered(map[], Singles(p, fs)), last), Sub(key, p.id), key)
  {
    hide Allowed, Apply, Run, AllowedRun;
    RunSingles(p, fs);
    RemovedLeaf(p, fs, 32);
    assert Fresh("", 0).(children := []) == Fresh("", 0);
    var last, key := Unsubscribing(p.id, Some([fs[32]])), [fs[0]];
    assert Lookup(EmptyTree(), Some(key)) == [];
    assert Singles(p, fs)[0..] == Singles(p, fs);
    SinglesStay(map[], p, fs, 0, Sub(key, p.id));
    assert [fs[32]] != key by { assert fs[0] != fs[32]; }
    assert Sub(key, p.id) in Register(Registered(map[], Singles(p, fs)), last);
    assert Matches(key, key);
  }
}
