/** The peer subscription tree as the code keeps it: nodes and buckets on the heap, changed in place. */
module TreeNodes {
  import opened Options
  import opened PeerList
  import opened Trie
  import opened Routing
  import opened Subscriptions
  import opened BindingKey

  /** `cb_peer_subscription_tree_bucket`: some of the literal children of a node. */
  class Bucket {
    const children: array<TreeNode?>
    var depth: nat

    constructor ()
      ensures fresh(children) && depth == 0 && Shape()
    {
      children := new TreeNode?[BUCKET_MAX](_ => null);
      depth := 0;
    }

    /** The slots beyond the depth are NULL, and no others. */
    ghost predicate Shape()
      reads this, children
    {
      && children.Length == BUCKET_MAX && depth <= BUCKET_MAX
      && (forall i :: 0 <= i < depth ==> children[i] != null)
      && (forall i :: depth <= i < BUCKET_MAX ==> children[i] == null)
    }
  }

  /** The address of a child pointer inside its parent. */
  datatype Slot = Sharp | Star | Literal(bucket: nat, i: nat)

  ghost function ArraysOf(buckets: seq<Bucket>): set<object> {
    set b: Bucket | b in buckets :: b.children
  }

  ghost function ObjectsOf(buckets: seq<Bucket>): set<object> {
    var own: set<object> := set b: Bucket | b in buckets;
    own + ArraysOf(buckets)
  }

  /** The buckets are different ones, and only the last may not be full. */
  ghost predicate InShape(buckets: seq<Bucket>)
    reads buckets, ArraysOf(buckets)
  {
    && (forall b :: 0 <= b < |buckets| ==> buckets[b].Shape())
    && (forall b :: 0 <= b < |buckets| - 1 ==> buckets[b].depth == BUCKET_MAX)
    && (forall a, b :: 0 <= a < b < |buckets| ==> buckets[a] != buckets[b] && buckets[a].children != buckets[b].children)
  }

  function LiteralAt(buckets: seq<Bucket>, b: nat, i: nat): TreeNode?
    requires InShape(buckets)
    reads buckets, ArraysOf(buckets)
  {
    if b < |buckets| && i < buckets[b].depth then buckets[b].children[i] else null
  }

  ghost function WidthOf(buckets: seq<Bucket>): nat
    reads buckets
  {
    if buckets == [] then 0 else BUCKET_MAX * (|buckets| - 1) + buckets[|buckets| - 1].depth
  }

  function SlotAt(i: nat): Slot {
    Literal(i / BUCKET_MAX, i % BUCKET_MAX)
  }

  class TreeNode {
    const fragment: string
    const index: nat
    var peers: seq<Peer>
    var sharp: TreeNode?
    var star: TreeNode?
    /** The list of buckets from its head to its tail. */
    var buckets: seq<Bucket>

    ghost var repr: set<object>
    ghost var value: Node

    function At(s: Slot): TreeNode?
      requires InShape(buckets)
      reads this, buckets, ArraysOf(buckets)
    {
      match s
      case Sharp => sharp
      case Star => star
      case Literal(b, i) => LiteralAt(buckets, b, i)
    }

    /** The objects of the node itself. */
    ghost function Own(): set<object>
      reads this
    {
      {this} + ObjectsOf(buckets)
    }

    /** The footprint has the node's own objects and those of its children, and nothing is shared. */
    ghost predicate Footprint()
      reads this, repr
    {
      && this in repr && Own() <= repr
      && InShape(buckets)
      && (forall s :: At(s) != null ==> At(s) in repr && At(s) in At(s).repr && At(s).repr < repr && At(s).repr !! Own())
      && (forall s, t :: s != t && At(s) != null && At(t) != null ==> At(s).repr !! At(t).repr)
    }

    /** The node stands for its value, and so do its children. */
    ghost predicate Valid()
      reads this, repr
      decreases repr
    {
      && Footprint() && Represents()
      && (forall s :: At(s) != null ==> At(s).Valid())
      && (buckets != [] ==> buckets[|buckets| - 1].depth > 0)
    }

    ghost predicate Represents()
      requires Footprint()
      reads this, repr
    {
      && value.fragment == fragment && value.index == index && value.peers == peers
      && forall s :: ValueAt(value, s) == if At(s) == null then None else Some(At(s).value)
    }

    constructor (fragment: string, index: nat)
      ensures Valid() && repr == {this} && value == Fresh(fragment, index)
    {
      this.fragment, this.index, peers := fragment, index, [];
      sharp, star, buckets := null, null, [];
      repr, value := {this}, Fresh(fragment, index);
    }
  }

  /** The child of a value that is in a slot. */
  function ValueAt(v: Node, s: Slot): Option<Node> {
    match s
    case Sharp => v.sharp
    case Star => v.star
    case Literal(b, i) =>
      if i < BUCKET_MAX && BUCKET_MAX * b + i < |v.children| then Some(v.children[BUCKET_MAX * b + i]) else None
  }

  /** All that is asked of a valid node, but that its last bucket may be empty. */
  ghost predicate Open(node: TreeNode)
    reads node, node.repr
  {
    node.Footprint() && node.Represents() && forall s :: node.At(s) != null ==> node.At(s).Valid()
  }

  /** A node is no bucket and no array of one. */
  lemma NoNodeIsBucket(node: TreeNode, buckets: seq<Bucket>)
    ensures node !in ObjectsOf(buckets) && ArraysOf(buckets) <= ObjectsOf(buckets) && forall b <- buckets :: b in ObjectsOf(buckets)
  {
  }

  lemma Opened(node: TreeNode)
    requires node.Valid()
    ensures Open(node)
  {
  }

  lemma InUse(node: TreeNode)
    requires node.Valid()
    ensures node.buckets != [] ==> node.buckets[|node.buckets| - 1].depth > 0
  {
  }

  lemma Closed(node: TreeNode)
    requires Open(node) && (node.buckets != [] ==> node.buckets[|node.buckets| - 1].depth > 0)
    ensures node.Valid()
  {
  }

  /** What the node's own fields say. */
  lemma OwnFacts(node: TreeNode)
    requires node.Valid()
    ensures InShape(node.buckets) && node in node.Own() && node.Own() <= node.repr
    ensures node.value.peers == node.peers && node.value.fragment == node.fragment && node.value.index == node.index
    ensures |node.value.children| == WidthOf(node.buckets)
    ensures node.value.sharp == None <==> node.sharp == null
    ensures node.value.star == None <==> node.star == null
  {
    assert node.At(Sharp) == node.sharp && node.At(Star) == node.star;
    assert ValueAt(node.value, Sharp) == node.value.sharp && ValueAt(node.value, Star) == node.value.star;
    WidthFacts(node);
  }

  /** The slots in use are the first ones. */
  lemma WithinWidth(node: TreeNode, i: nat)
    requires InShape(node.buckets)
    ensures node.At(SlotAt(i)) != null <==> i < WidthOf(node.buckets)
  {
  }

  lemma ValueAtSlot(v: Node, i: nat)
    ensures ValueAt(v, SlotAt(i)) == if i < |v.children| then Some(v.children[i]) else None
  {
  }

  lemma WidthFacts(node: TreeNode)
    requires node.Footprint() && node.Represents()
    ensures |node.value.children| == WidthOf(node.buckets)
  {
    hide TreeNode.At, InShape, WidthOf, ValueAt, SlotAt;
    var width, count := WidthOf(node.buckets), |node.value.children|;
    WithinWidth(node, width);
    WithinWidth(node, count);
    ValueAtSlot(node.value, width);
    ValueAtSlot(node.value, count);
    assert ValueAt(node.value, SlotAt(width)).Some? <==> node.At(SlotAt(width)) != null;
    assert ValueAt(node.value, SlotAt(count)).Some? <==> node.At(SlotAt(count)) != null;
  }

  lemma SlotIsUsed(node: TreeNode, s: Slot)
    requires node.Valid() && InShape(node.buckets)
    ensures node.At(s) != null <==> ValueAt(node.value, s).Some?
  {
  }

  /** A child is a valid node of its own, stands for the child of the value and has a footprint within its parent's. */
  lemma ChildFacts(node: TreeNode, s: Slot)
    requires node.Valid() && InShape(node.buckets) && node.At(s) != null
    ensures node.At(s).Valid() && node.At(s).repr < node.repr && node !in node.At(s).repr
    ensures node.At(s) in node.At(s).repr && node.At(s).repr !! node.Own()
    ensures ValueAt(node.value, s) == Some(node.At(s).value)
  {
    hide TreeNode.At, InShape;
    assert node in node.Own();
  }

  lemma SharpFacts(node: TreeNode)
    requires node.Valid() && node.sharp != null
    ensures node.sharp.Valid() && node.sharp.repr < node.repr && node.value.sharp == Some(node.sharp.value)
  {
    assert node.At(Sharp) == node.sharp && ValueAt(node.value, Sharp) == node.value.sharp;
  }

  lemma StarFacts(node: TreeNode)
    requires node.Valid() && node.star != null
    ensures node.star.Valid() && node.star.repr < node.repr && node.value.star == Some(node.star.value)
  {
    assert node.At(Star) == node.star && ValueAt(node.value, Star) == node.value.star;
  }

  /** How many children there are up to the end of a bucket. */
  lemma BucketEnd(node: TreeNode, b: nat)
    requires node.Valid() && b < |node.buckets|
    ensures node.buckets[b] in node.repr && node.buckets[b].children in node.repr
    ensures node.buckets[b].depth <= BUCKET_MAX == node.buckets[b].children.Length
    ensures var end := BUCKET_MAX * b + node.buckets[b].depth;
      end <= |node.value.children| && end == if b + 1 < |node.buckets| then BUCKET_MAX * (b + 1) else |node.value.children|
  {
    WidthFacts(node);
    assert node.buckets[b] in node.Own() && node.buckets[b].children in node.Own();
  }

  lemma BucketFacts(node: TreeNode, b: nat, i: nat)
    requires node.Valid() && b < |node.buckets| && i < node.buckets[b].depth
    ensures i < node.buckets[b].children.Length && BUCKET_MAX * b + i < |node.value.children|
    ensures var c := node.buckets[b].children[i];
      && c != null && c.Valid() && c.repr < node.repr && node !in c.repr && c in c.repr
      && node.value.children[BUCKET_MAX * b + i] == c.value
  {
    assert node.buckets[b].Shape();
    assert node.At(Literal(b, i)) == node.buckets[b].children[i];
    ChildFacts(node, Literal(b, i));
    assert ValueAt(node.value, Literal(b, i)).Some?;
  }

  // ----- reading the tree -----

  /** `cb_peer_subscription_tree_node_count`. */
  method NodeCount(node: TreeNode) returns (count: nat)
    requires node.Valid()
    ensures count == Count(node.value)
    decreases node.repr, 2
  {
    hide TreeNode.Valid, InShape, TreeNode.Own, ArraysOf, WidthOf;
    OwnFacts(node);
    count := |node.peers|;
    if node.sharp != null {
      SharpFacts(node);
      var below := NodeCount(node.sharp);
      count := count + below;
    }
    if node.star != null {
      StarFacts(node);
      var below := NodeCount(node.star);
      count := count + below;
    }
    var below := BucketsCount(node);
    count := count + below;
  }

  /** The loop over the buckets. */
  method BucketsCount(node: TreeNode) returns (count: nat)
    requires node.Valid()
    ensures count == CountIn(node.value.children)
    decreases node.repr, 1
  {
    hide TreeNode.Valid, InShape, TreeNode.Own, ArraysOf, WidthOf;
    ghost var ns, done := node.value.children, 0;
    if node.buckets == [] {
      NoBuckets(node);
    }
    count := 0;
    var b := 0;
    while b < |node.buckets|
      invariant b <= |node.buckets| && done == (if b < |node.buckets| then BUCKET_MAX * b else |ns|)
      invariant done <= |ns| && count + CountIn(ns[done..]) == CountIn(ns)
    {
      BucketEnd(node, b);
      var below := BucketCount(node, b);
      count := count + below;
      done := BUCKET_MAX * b + node.buckets[b].depth;
      b := b + 1;
    }
    assert ns[|ns|..] == [];
  }

  lemma NoBuckets(node: TreeNode)
    requires node.Valid() && node.buckets == []
    ensures node.value.children == []
  {
    WidthFacts(node);
  }

  /** The loop over one bucket. */
  method BucketCount(node: TreeNode, b: nat) returns (count: nat)
    requires node.Valid() && b < |node.buckets|
    ensures var ns, end := node.value.children, BUCKET_MAX * b + node.buckets[b].depth;
      BUCKET_MAX * b <= end <= |ns| && count + CountIn(ns[end..]) == CountIn(ns[BUCKET_MAX * b..])
    decreases node.repr, 0
  {
    hide TreeNode.Valid;
    BucketEnd(node, b);
    ghost var ns, start := node.value.children, BUCKET_MAX * b;
    var bucket := node.buckets[b];
    count := 0;
    var i := 0;
    while i < bucket.depth
      invariant i <= bucket.depth && start + i <= |ns|
      invariant count + CountIn(ns[start + i..]) == CountIn(ns[start..])
    {
      BucketFacts(node, b, i);
      var below := NodeCount(bucket.children[i]);
      count := count + below;
      assert ns[start + i..][1..] == ns[start + i + 1..];
      i := i + 1;
    }
  }

  /** `cb_peer_subscription_tree_collector`. */
  class Collector {
    const key: Path
    var peers: seq<Peer>

    constructor (key: Path)
      ensures this.key == key && peers == []
    {
      this.key, peers := key, [];
    }
  }

  /** `cb_peer_subscription_tree_collector_offer_all`. */
  method CollectAll(collector: Collector, node: TreeNode)
    requires node.Valid() && collector !in node.repr
    modifies collector
    ensures collector.peers == Offer(old(collector.peers), All(node.value))
    decreases node.repr, 2
  {
    hide TreeNode.Valid, InShape, TreeNode.Own, ArraysOf, WidthOf, Offer;
    OwnFacts(node);
    ghost var v, was := node.value, collector.peers;
    collector.peers := OfferPeers(collector.peers, node.peers);
    if node.sharp != null {
      SharpFacts(node);
      CollectAll(collector, node.sharp);
    } else {
      OfferNone(collector.peers);
    }
    OfferTwice(was, v.peers, AllOf(v.sharp));
    if node.star != null {
      StarFacts(node);
      CollectAll(collector, node.star);
    } else {
      OfferNone(collector.peers);
    }
    OfferTwice(was, v.peers + AllOf(v.sharp), AllOf(v.star));
    CollectBuckets(collector, node);
    OfferTwice(was, v.peers + AllOf(v.sharp) + AllOf(v.star), AllIn(v.children));
  }

  /** The loop over the buckets. */
  method CollectBuckets(collector: Collector, node: TreeNode)
    requires node.Valid() && collector !in node.repr
    modifies collector
    ensures collector.peers == Offer(old(collector.peers), AllIn(node.value.children))
    decreases node.repr, 1
  {
    hide TreeNode.Valid, InShape, TreeNode.Own, ArraysOf, WidthOf, Offer;
    OwnFacts(node);
    ghost var ns, before, done := node.value.children, collector.peers, 0;
    if node.buckets == [] {
      NoBuckets(node);
    }
    var b := 0;
    while b < |node.buckets|
      invariant b <= |node.buckets| && done == (if b < |node.buckets| then BUCKET_MAX * b else |ns|)
      invariant done <= |ns| && Offer(collector.peers, AllIn(ns[done..])) == Offer(before, AllIn(ns))
    {
      BucketEnd(node, b);
      CollectBucket(collector, node, b);
      done := BUCKET_MAX * b + node.buckets[b].depth;
      b := b + 1;
    }
    assert ns[|ns|..] == [];
    OfferNone(collector.peers);
  }

  /** The loop over one bucket. */
  method CollectBucket(collector: Collector, node: TreeNode, b: nat)
    requires node.Valid() && collector !in node.repr && b < |node.buckets|
    modifies collector
    ensures var ns, end := node.value.children, BUCKET_MAX * b + node.buckets[b].depth;
      && BUCKET_MAX * b <= end <= |ns|
      && Offer(collector.peers, AllIn(ns[end..])) == Offer(old(collector.peers), AllIn(ns[BUCKET_MAX * b..]))
    decreases node.repr, 0
  {
    hide TreeNode.Valid, Offer;
    BucketEnd(node, b);
    ghost var ns, start := node.value.children, BUCKET_MAX * b;
    var bucket := node.buckets[b];
    var i := 0;
    while i < bucket.depth
      invariant i <= bucket.depth && start + i <= |ns|
      invariant Offer(collector.peers, AllIn(ns[start + i..])) == Offer(old(collector.peers), AllIn(ns[start..]))
    {
      BucketFacts(node, b, i);
      ghost var now := collector.peers;
      CollectAll(collector, bucket.children[i]);
      assert ns[start + i..][1..] == ns[start + i + 1..];
      OfferTwice(now, All(ns[start + i]), AllIn(ns[start + i + 1..]));
      i := i + 1;
    }
  }

  lemma OfferNone(acc: seq<Peer>)
    ensures Offer(acc, []) == acc
  {
  }

  /** `cb_binding_key_get_fragment`: NULL beyond the key. */
  function GetFragment(key: Path, index: nat): Option<string> {
    if index < |key| then Some(key[index]) else None
  }

  /** `cb_peer_subscription_tree_is_leaf`. */
  predicate IsLeaf(root: TreeNode, node: TreeNode, key: Path) {
    node != root && node.index == |key| - 1
  }

  /** Where the fragment's child is: wildcards have slots of their own, and a literal one its place in the bucket. */
  function SlotFor(v: Node, wild: string, literal: string): Option<Slot> {
    if wild == "#" then Some(Sharp)
    else if wild == "*" then Some(Star)
    else if Find(v.children, literal) < |v.children| then Some(SlotAt(Find(v.children, literal)))
    else None
  }

  lemma ChildIndices(v: Node, depth: nat)
    requires Healthy(v, depth)
    ensures forall c <- v.children :: c.index == depth
  {
  }

  /** `cb_peer_subscription_tree_get_child_node`: a wildcard at the given index, or the literal child that agrees with the
      key at the child's own index. */
  method GetChildNode(node: TreeNode, key: Path, fragmentIndex: nat, ghost depth: nat) returns (slot: Option<Slot>)
    requires node.Valid() && Healthy(node.value, depth) && fragmentIndex < |key| && depth < |key|
    ensures slot == SlotFor(node.value, key[fragmentIndex], key[depth])
  {
    hide TreeNode.Valid, InShape, TreeNode.Own, ArraysOf, WidthOf, Find, Healthy;
    OwnFacts(node);
    ChildIndices(node.value, depth);
    var fragment := GetFragment(key, fragmentIndex);
    if fragment == Some("#") {
      return Some(Sharp);
    }
    if fragment == Some("*") {
      return Some(Star);
    }
    ghost var ns, done := node.value.children, 0;
    if node.buckets == [] {
      NoBuckets(node);
    }
    var b := 0;
    while b < |node.buckets|
      invariant b <= |node.buckets| && done == (if b < |node.buckets| then BUCKET_MAX * b else |ns|)
      invariant done <= |ns| && forall j :: 0 <= j < done ==> ns[j].fragment != key[depth]
    {
      BucketEnd(node, b);
      var bucket := node.buckets[b];
      var i := 0;
      while i < bucket.depth
        invariant i <= bucket.depth && done == BUCKET_MAX * b + i <= |ns|
        invariant forall j :: 0 <= j < done ==> ns[j].fragment != key[depth]
      {
        BucketFacts(node, b, i);
        var child: TreeNode := bucket.children[i];
        OwnFacts(child);
        fragment := GetFragment(key, child.index);
        if fragment.Some? && child.fragment == fragment.value {
          FindFirst(ns, key[depth], done);
          return Some(Literal(b, i));
        }
        i, done := i + 1, done + 1;
      }
      b := b + 1;
    }
    FindFirst(ns, key[depth], |ns|);
    slot := None;
  }

  /** The node at a depth of the tree that has the given root. */
  predicate IsAtDepth(root: TreeNode, node: TreeNode, depth: nat) {
    if node == root then depth == 0 && node.index == 0 else 0 < depth == node.index + 1
  }

  lemma SlotIsHealthy(v: Node, depth: nat, s: Slot)
    requires Healthy(v, depth) && ValueAt(v, s).Some?
    ensures HealthyChild(ValueAt(v, s).value, depth) && Healthy(ValueAt(v, s).value, depth + 1)
  {
  }

  /** The slot that was found holds the child that the specification of the lookup goes on with. */
  lemma SlotIsTested(v: Node, wild: string, literal: string)
    ensures Tested(v, wild, literal) ==
      match SlotFor(v, wild, literal) case None => None case Some(s) => ValueAt(v, s)
  {
  }

  function OfferedBelow(c: Option<Node>, q: Path): seq<Peer>
    requires q != []
  {
    if c.None? then [] else Offered(c.value, q[0], q[1..])
  }

  function OfferedHere(v: Node): seq<Peer> {
    if v.sharp.Some? then All(v) else []
  }

  lemma OfferedParts(v: Node, tested: string, q: Path)
    requires q != []
    ensures Offered(v, tested, q) == OfferedHere(v) + OfferedBelow(v.star, q) + OfferedBelow(Tested(v, tested, q[0]), q)
  {
  }

  /** `cb_peer_subscription_tree_collect`. */
  method Collect(collector: Collector, root: TreeNode, node: TreeNode, ghost depth: nat)
    requires node.Valid() && collector !in node.repr && Healthy(node.value, depth)
    requires collector.key != [] && depth <= |collector.key| && IsAtDepth(root, node, depth)
    requires node != root ==> root !in node.repr
    modifies collector
    ensures collector.peers == Offer(old(collector.peers), Offered(node.value, collector.key[node.index], collector.key[depth..]))
    decreases node.repr, 1
  {
    hide TreeNode.Valid, InShape, TreeNode.Own, WidthOf;
    hide Offer, Healthy, All, Offered, Tested, SlotFor, ValueAt;
    OwnFacts(node);
    ghost var v, was, q := node.value, collector.peers, collector.key[depth..];
    var key := collector.key;
    if IsLeaf(root, node, key) {
      collector.peers := OfferPeers(collector.peers, node.peers);
      assert depth == |key| && q == [];
      OfferedAtLeaf(v, key[node.index]);
      return;
    }
    assert q[0] == key[depth] && q[1..] == key[depth + 1..];
    OfferedParts(v, key[node.index], q);
    if node.sharp != null {
      CollectAll(collector, node);
    } else {
      OfferNone(collector.peers);
    }
    StarIsValue(v);
    CollectBelow(collector, root, node, Star, depth);
    OfferTwice(was, OfferedHere(v), OfferedBelow(v.star, q));
    var slot := GetChildNode(node, key, node.index, depth);
    SlotIsTested(v, key[node.index], key[depth]);
    if slot.Some? {
      CollectBelow(collector, root, node, slot.value, depth);
    } else {
      OfferNone(collector.peers);
    }
    OfferTwice(was, OfferedHere(v) + OfferedBelow(v.star, q), OfferedBelow(Tested(v, key[node.index], q[0]), q));
  }

  /** The lookup goes on with the child in a slot, if there is one. */
  method CollectBelow(collector: Collector, root: TreeNode, node: TreeNode, slot: Slot, ghost depth: nat)
    requires node.Valid() && collector !in node.repr && Healthy(node.value, depth)
    requires depth < |collector.key| && IsAtDepth(root, node, depth)
    requires node != root ==> root !in node.repr
    modifies collector
    ensures collector.peers == Offer(old(collector.peers), OfferedBelow(ValueAt(node.value, slot), collector.key[depth..]))
    decreases node.repr, 0
  {
    hide TreeNode.Valid, InShape, TreeNode.At, Offer, Healthy, Offered, ValueAt;
    OwnFacts(node);
    CollectFacts(root, node, depth, slot);
    ghost var q := collector.key[depth..];
    assert q[0] == collector.key[depth] && q[1..] == collector.key[depth + 1..];
    var child := node.At(slot);
    if child != null {
      Collect(collector, root, child, depth + 1);
    } else {
      OfferNone(collector.peers);
    }
  }

  lemma StarIsValue(v: Node)
    ensures ValueAt(v, Star) == v.star
  {
  }

  lemma OfferedAtLeaf(v: Node, tested: string)
    ensures Offered(v, tested, []) == v.peers
  {
  }

  lemma CollectFacts(root: TreeNode, node: TreeNode, depth: nat, s: Slot)
    requires node.Valid() && Healthy(node.value, depth) && IsAtDepth(root, node, depth)
    requires node != root ==> root !in node.repr
    requires InShape(node.buckets)
    ensures node.At(s) == null ==> ValueAt(node.value, s) == None
    ensures node.At(s) != null ==>
      var c := node.At(s);
      c.Valid() && Healthy(c.value, depth + 1) && IsAtDepth(root, c, depth + 1) && c.index == depth && c != root && root !in c.repr
      && c.repr < node.repr && c in c.repr && ValueAt(node.value, s) == Some(c.value)
  {
    OwnFacts(node);
    if node.At(s) != null {
      ChildFacts(node, s);
      SlotIsHealthy(node.value, depth, s);
      OwnFacts(node.At(s));
    }
  }

  // ----- changing the tree -----

  /** The value with the child in a slot replaced, or set where there was none. */
  function PutAt(v: Node, s: Slot, c: Node): Node {
    match s
    case Sharp => v.(sharp := Some(c))
    case Star => v.(star := Some(c))
    case Literal(b, i) =>
      var at := BUCKET_MAX * b + i;
      if at <= |v.children| then v.(children := PutIn(v.children, at, c)) else v
  }

  /** The slot is one in use, or the next. */
  predicate InRange(v: Node, s: Slot) {
    s.Literal? ==> s.i < BUCKET_MAX && BUCKET_MAX * s.bucket + s.i <= |v.children|
  }

  /** What a slot's child had for a footprint. */
  ghost function Below(c: TreeNode?): set<object>
    reads c
  {
    if c == null then {} else c.repr
  }

  /** Only the node itself and the subtree in one slot have changed, and all that the new subtree shares with the old tree was
      in that slot before. */
  twostate predicate OnlyBelow(node: TreeNode, new s: Slot, new c: TreeNode)
    reads node, node.buckets, ArraysOf(node.buckets), c
  {
    && old(Open(node)) && InShape(node.buckets) && old(node.Own()) <= node.Own() && (node.Own() - old(node.Own())) !! old(node.repr)
    && (forall t :: t != s ==> node.At(t) == old(node.At(t)))
    && node.Own() <= node.repr && node.repr == old(node.repr) + c.repr
    && node.At(s) == c && c in c.repr && c.repr !! node.Own() && c.repr * old(node.repr) <= old(Below(node.At(s)))
    && node.peers == old(node.peers) && node.value == PutAt(old(node.value), s, c.value)
  }

  twostate predicate Unchanged(objects: set<object>)
    reads objects
  {
    unchanged(objects)
  }

  twostate lemma OthersUnchanged(node: TreeNode, new s: Slot, new c: TreeNode, new t: Slot)
    requires OnlyBelow(node, s, c) && node.At(t) != null && t != s
    requires Unchanged(old(node.repr) - old(node.Own()) - old(Below(node.At(s))))
    ensures node.At(t) == old(node.At(t)) && node.At(t) in old(node.repr)
    ensures node.At(t).repr == old(node.At(t).repr) && node.At(t).value == old(node.At(t).value)
    ensures node.At(t).repr <= old(node.repr) && node.At(t).repr !! c.repr && node.At(t).Valid()
  {
    hide TreeNode.Valid;
    assert node.At(t) == old(node.At(t));
    assert old(node.At(t).repr) <= old(node.repr) - old(node.Own()) - old(Below(node.At(s)));
    assert node.At(t) in old(node.repr) - old(node.Own()) - old(Below(node.At(s)));
  }

  twostate lemma FootprintAfter(node: TreeNode, new s: Slot, new c: TreeNode)
    requires OnlyBelow(node, s, c)
    requires Unchanged(old(node.repr) - old(node.Own()) - old(Below(node.At(s))))
    ensures node.Footprint()
  {
    hide TreeNode.Valid;
    assert node in node.repr && node !in c.repr;
    forall t | t != s && node.At(t) != null
      ensures node.At(t) == old(node.At(t)) && node.At(t).repr == old(node.At(t).repr) && node.At(t).repr !! c.repr
    {
      OthersUnchanged(node, s, c, t);
    }
    assert forall t :: node.At(t) != null ==> node.At(t) in node.repr && node.At(t) in node.At(t).repr && node.At(t).repr < node.repr;
    assert forall t :: node.At(t) != null ==> node.At(t).repr !! node.Own();
  }

  twostate lemma OpenAfter(node: TreeNode, new s: Slot, new c: TreeNode)
    requires OnlyBelow(node, s, c) && c.Valid() && InRange(old(node.value), s)
    requires Unchanged(old(node.repr) - old(node.Own()) - old(Below(node.At(s))))
    ensures Open(node)
  {
    hide TreeNode.Valid;
    FootprintAfter(node, s, c);
    forall t | t != s && node.At(t) != null
      ensures node.At(t).Valid() && node.At(t).value == old(node.At(t).value)
    {
      OthersUnchanged(node, s, c, t);
    }
    forall t
      ensures ValueAt(node.value, t) == if node.At(t) == null then None else Some(node.At(t).value)
    {
      ValueAtPut(old(node.value), s, c.value, t);
      assert node.At(t) == if t == s then c else old(node.At(t));
    }
  }

  lemma ValueAtPut(v: Node, s: Slot, c: Node, t: Slot)
    requires InRange(v, s)
    ensures ValueAt(PutAt(v, s, c), t) == if t == s then Some(c) else ValueAt(v, t)
  {
  }

  /** A child that is new to the tree has come into the slot. */
  twostate predicate NewBelow(node: TreeNode, new s: Slot, new c: TreeNode)
    reads node, node.buckets, ArraysOf(node.buckets), c
  {
    && old(Open(node)) && InShape(node.buckets) && old(node.At(s)) == null
    && (forall t :: t != s ==> node.At(t) == old(node.At(t)))
    && node.At(s) == c && c in c.repr && fresh(c.repr)
    && node.repr == old(node.repr) + c.repr
    && node.peers == old(node.peers) && node.value == PutAt(old(node.value), s, c.value)
  }

  twostate lemma NewIsOnlyBelow(node: TreeNode, new s: Slot, new c: TreeNode)
    requires InShape(node.buckets) && node.buckets == old(node.buckets) && NewBelow(node, s, c)
    ensures OnlyBelow(node, s, c)
  {
    hide TreeNode.Valid, InShape, TreeNode.At, TreeNode.Represents, PutAt;
  }

  /** A new node in a wildcard slot. */
  method AddWildcard(node: TreeNode, slot: Slot, f: string, fragmentIndex: nat)
    requires node.Valid() && !slot.Literal? && node.At(slot) == null
    modifies node
    ensures node.Valid() && fresh(node.repr - old(node.repr))
    ensures node.value == PutAt(old(node.value), slot, Fresh(f, fragmentIndex))
    ensures node.At(slot) != null && node.At(slot).value == Fresh(f, fragmentIndex)
  {
    hide TreeNode.Valid, TreeNode.Represents, TreeNode.Footprint, InShape, LiteralAt, ArraysOf, ObjectsOf, OnlyBelow, PutAt, Open;
    OwnFacts(node);
    NoNodeIsBucket(node, node.buckets);
    Opened(node);
    InUse(node);
    var child := new TreeNode(f, fragmentIndex);
    if slot == Sharp {
      node.sharp := child;
    } else {
      node.star := child;
    }
    node.repr := node.repr + child.repr;
    node.value := PutAt(node.value, slot, child.value);
    NewIsOnlyBelow(node, slot, child);
    OpenAfter(node, slot, child);
    Closed(node);
  }

  lemma OpenFacts(node: TreeNode)
    requires Open(node)
    ensures InShape(node.buckets) && node in node.Own() && node.Own() <= node.repr && |node.value.children| == WidthOf(node.buckets)
  {
    WidthFacts(node);
  }

  /** The last bucket is missing or full. */
  predicate TailFull(buckets: seq<Bucket>)
    reads buckets
  {
    buckets == [] || buckets[|buckets| - 1].depth == BUCKET_MAX
  }

  /** An empty bucket behind full ones. */
  lemma OneMoreBucket(buckets: seq<Bucket>, more: Bucket)
    requires InShape(buckets) && TailFull(buckets) && more.Shape() && more.depth == 0
    requires more !in ObjectsOf(buckets) && more.children !in ObjectsOf(buckets)
    ensures InShape(buckets + [more]) && WidthOf(buckets + [more]) == WidthOf(buckets)
  {
    hide Bucket.Shape;
    forall b | 0 <= b < |buckets|
      ensures (buckets + [more])[b] == buckets[b] && buckets[b] in ObjectsOf(buckets) && buckets[b].children in ObjectsOf(buckets)
    {
    }
  }

  lemma OneMoreLiteral(buckets: seq<Bucket>, more: Bucket, b: nat, i: nat)
    requires InShape(buckets) && InShape(buckets + [more]) && more.depth == 0
    ensures LiteralAt(buckets + [more], b, i) == LiteralAt(buckets, b, i)
  {
  }

  lemma OneMoreInObjects(buckets: seq<Bucket>, more: Bucket)
    ensures ObjectsOf(buckets + [more]) == ObjectsOf(buckets) + {more, more.children}
  {
    var all := buckets + [more];
    assert all[|buckets|] == more;
    forall b: Bucket
      ensures b in all <==> b in buckets || b == more
    {
    }
    forall o: object
      ensures o in ArraysOf(all) <==> o in ArraysOf(buckets) || o == more.children
    {
    }
  }

  /** `cb_peer_subscription_tree_bucket_add`. */
  method AddBucket(node: TreeNode)
    requires Open(node) && TailFull(node.buckets)
    modifies node
    ensures Open(node) && node.buckets != [] && node.buckets[|node.buckets| - 1].depth == 0
    ensures fresh(node.Own() - old(node.Own())) && fresh(node.repr - old(node.repr))
    ensures node.value == old(node.value)
  {
    hide TreeNode.Valid, InShape, LiteralAt, ArraysOf, ObjectsOf, TailFull, Bucket.Shape;
    OpenFacts(node);
    NoNodeIsBucket(node, node.buckets);
    var bucket := new Bucket();
    NoNodeIsBucket(node, node.buckets + [bucket]);
    OneMoreBucket(node.buckets, bucket);
    OneMoreInObjects(node.buckets, bucket);
    ghost var was := node.buckets;
    node.buckets := node.buckets + [bucket];
    node.repr := node.repr + {bucket, bucket.children};
    forall s
      ensures node.At(s) == old(node.At(s))
      ensures node.At(s) != null ==> node.At(s).repr == old(node.At(s).repr)
    {
      if s.Literal? {
        OneMoreLiteral(was, bucket, s.bucket, s.i);
      }
    }
    assert node.Footprint();
    assert node.Represents();
  }

  /** The last bucket's next slot is taken. */
  method TakeSlot(ghost buckets: seq<Bucket>, bucket: Bucket, child: TreeNode)
    requires InShape(buckets) && !TailFull(buckets) && bucket == buckets[|buckets| - 1]
    modifies bucket, bucket.children
    ensures InShape(buckets) && bucket.depth == old(bucket.depth) + 1
    ensures forall b: nat, i: nat ::
      LiteralAt(buckets, b, i) == if b == |buckets| - 1 && i == old(bucket.depth) then child else old(LiteralAt(buckets, b, i))
  {
    assert bucket.Shape();
    bucket.children[bucket.depth] := child;
    bucket.depth := bucket.depth + 1;
  }

  lemma LastBucket(node: TreeNode)
    requires Open(node) && node.buckets != []
    ensures var bucket := node.buckets[|node.buckets| - 1];
      && bucket in node.Own() && bucket.children in node.Own() && node.At(Literal(|node.buckets| - 1, bucket.depth)) == null
      && (bucket.depth < BUCKET_MAX ==> Literal(|node.buckets| - 1, bucket.depth) == SlotAt(|node.value.children|))
      && bucket.depth <= BUCKET_MAX
  {
    OpenFacts(node);
    assert node.buckets[|node.buckets| - 1].Shape();
  }

  /** The last bucket's next child. */
  method AppendChild(node: TreeNode, f: string, fragmentIndex: nat)
    requires Open(node) && !TailFull(node.buckets)
    modifies node.Own()
    ensures node.Valid() && fresh(node.repr - old(node.repr))
    ensures node.value == PutAt(old(node.value), SlotAt(|old(node.value.children)|), Fresh(f, fragmentIndex))
    ensures var c := node.At(SlotAt(|old(node.value.children)|)); c != null && c.value == Fresh(f, fragmentIndex)
  {
    hide TreeNode.Valid, TreeNode.Represents, TreeNode.Footprint, InShape, LiteralAt, ArraysOf, OnlyBelow, PutAt, Open, SlotAt;
    OpenFacts(node);
    LastBucket(node);
    NoNodeIsBucket(node, node.buckets);
    var b := |node.buckets| - 1;
    var bucket := node.buckets[b];
    ghost var slot := Literal(b, bucket.depth);
    var child := new TreeNode(f, fragmentIndex);
    TakeSlot(node.buckets, bucket, child);
    node.repr := node.repr + child.repr;
    node.value := PutAt(node.value, slot, child.value);
    NewIsOnlyBelow(node, slot, child);
    OpenAfter(node, slot, child);
    Closed(node);
  }

  /** The slot that adding finds or takes for a fragment. */
  function AddSlot(v: Node, f: string): Slot {
    if f == "#" then Sharp else if f == "*" then Star else SlotAt(Place(v.children, f))
  }

  lemma AddSlotIsPlaced(v: Node, f: string)
    ensures ValueAt(v, AddSlot(v, f)) == Placed(v, f)
  {
    hide Place;
  }

  lemma PlaceAt(ns: seq<Node>, f: string, i: nat)
    requires TailStart(ns) + i <= |ns| && forall j :: TailStart(ns) <= j < TailStart(ns) + i ==> ns[j].fragment != f
    requires TailStart(ns) + i < |ns| ==> ns[TailStart(ns) + i].fragment == f
    ensures Place(ns, f) == TailStart(ns) + i
  {
    hide Find, TailStart;
    var start := TailStart(ns);
    assert forall j :: 0 <= j < |ns[start..]| ==> ns[start..][j] == ns[start + j];
    FindFirst(ns[start..], f, i);
  }

  /** Putting a child where it is changes nothing. */
  lemma PutSame(v: Node, s: Slot)
    requires ValueAt(v, s).Some?
    ensures PutAt(v, s, ValueAt(v, s).value) == v
  {
    if s.Literal? {
      var at := BUCKET_MAX * s.bucket + s.i;
      assert v.children[at := v.children[at]] == v.children;
    }
  }

  /** The last bucket starts where the search for adding does. */
  lemma TailIsLast(node: TreeNode)
    requires node.Valid()
    ensures var count := |node.value.children|;
      if TailFull(node.buckets) then TailStart(node.value.children) == count
      else TailStart(node.value.children) == BUCKET_MAX * (|node.buckets| - 1)
  {
    OwnFacts(node);
    if node.buckets != [] {
      assert node.buckets[|node.buckets| - 1].Shape();
      BucketEnd(node, |node.buckets| - 1);
    }
  }

  /** `cb_peer_subscription_tree_get_or_add_child_node`, with `cb_peer_subscription_tree_get_or_add_bucket`: the search is only
      for a child in the bucket that the next one would go to. */
  method GetOrAddChildNode(node: TreeNode, key: Path, fragmentIndex: nat) returns (slot: Slot)
    requires node.Valid() && fragmentIndex < |key|
    modifies node.Own()
    ensures node.Valid() && fresh(node.repr - old(node.repr)) && slot == AddSlot(old(node.value), key[fragmentIndex])
    ensures node.At(slot) != null && node.At(slot).value == PlacedOrFresh(old(node.value), key[fragmentIndex], fragmentIndex)
    ensures node.value == PutAt(old(node.value), slot, node.At(slot).value)
  {
    hide TreeNode.Valid, TreeNode.Own, InShape, LiteralAt, ArraysOf, ObjectsOf, Find, Place, TailStart, ValueAt, SlotAt;
    OwnFacts(node);
    var f := GetFragment(key, fragmentIndex).value;
    AddSlotIsPlaced(node.value, f);
    if IsWild(f) {
      slot := if f == "#" then Sharp else Star;
      SlotIsUsed(node, slot);
      if node.At(slot) == null {
        AddWildcard(node, slot, f, fragmentIndex);
      } else {
        ChildFacts(node, slot);
        PutSame(node.value, slot);
      }
      return;
    }
    var found := SearchTail(node, f);
    if found.Some? {
      slot := Literal(|node.buckets| - 1, found.value);
      SlotIsUsed(node, slot);
      ChildFacts(node, slot);
      PutSame(node.value, slot);
      return;
    }
    Opened(node);
    if TailFull(node.buckets) {
      AddBucket(node);
    }
    LastBucket(node);
    slot := Literal(|node.buckets| - 1, node.buckets[|node.buckets| - 1].depth);
    AppendChild(node, f, fragmentIndex);
  }

  /** The loop over the last bucket. */
  method SearchTail(node: TreeNode, f: string) returns (found: Option<nat>)
    requires node.Valid() && !IsWild(f)
    ensures InShape(node.buckets)
    ensures found.None? ==> Place(node.value.children, f) == |node.value.children|
    ensures found.Some? ==>
      node.buckets != [] && AddSlot(node.value, f) == Literal(|node.buckets| - 1, found.value) && node.At(AddSlot(node.value, f)) != null
  {
    hide TreeNode.Valid, TreeNode.Own, InShape, ArraysOf, ObjectsOf, Find, Place, TailStart;
    OwnFacts(node);
    TailIsLast(node);
    ghost var ns := node.value.children;
    if TailFull(node.buckets) {
      PlaceAt(ns, f, 0);
      return None;
    }
    var b := |node.buckets| - 1;
    BucketEnd(node, b);
    var bucket := node.buckets[b];
    var i := 0;
    while i < bucket.depth
      invariant i <= bucket.depth
      invariant forall j :: TailStart(ns) <= j < TailStart(ns) + i ==> ns[j].fragment != f
    {
      BucketFacts(node, b, i);
      OwnFacts(bucket.children[i]);
      if bucket.children[i].fragment == f {
        PlaceAt(ns, f, i);
        OwnFacts(node);
        return Some(i);
      }
      i := i + 1;
    }
    PlaceAt(ns, f, i);
    OwnFacts(node);
    found := None;
  }

  /** The slot that a fragment's child is found in. */
  function PlaceFor(v: Node, f: string): Slot {
    if f == "#" then Sharp else if f == "*" then Star else SlotAt(Find(v.children, f))
  }

  /** The value with the child in a slot taken out. */
  function TakeAt(v: Node, s: Slot): Node {
    match s
    case Sharp => v.(sharp := None)
    case Star => v.(star := None)
    case Literal(b, i) =>
      var at := BUCKET_MAX * b + i;
      if at < |v.children| then v.(children := v.children[..at] + v.children[at + 1..]) else v
  }

  /** The slot may be given up: a wildcard's always, and that of a child as far as the bucket allows. */
  predicate Sparing(v: Node, s: Slot) {
    s.Literal? ==> s.i < BUCKET_MAX && Removable(v.children, BUCKET_MAX * s.bucket + s.i)
  }

  /** Where a slot's child was before the slot `gone` was closed up. */
  function Moved(gone: Slot, s: Slot): Slot {
    if gone.Literal? && s.Literal? && gone.bucket == s.bucket && gone.i <= s.i then Literal(s.bucket, s.i + 1) else s
  }

  /** Nothing but the node itself has changed, and it has lost the child in the slot. */
  twostate predicate LostChild(node: TreeNode, new gone: Slot)
    reads node, node.buckets, ArraysOf(node.buckets)
  {
    && old(Open(node)) && old(node.At(gone)) != null && InShape(node.buckets) && node.Own() <= old(node.Own())
    && Sparing(old(node.value), gone)
    && (forall s :: node.At(s) == if s == gone && !gone.Literal? then null else old(node.At(Moved(gone, s))))
    && node.repr == old(node.repr) && node.peers == old(node.peers) && node.value == TakeAt(old(node.value), gone)
  }

  twostate lemma KeptUnchanged(node: TreeNode, new gone: Slot, new s: Slot)
    requires LostChild(node, gone) && node.At(s) != null
    requires Unchanged(old(node.repr) - old(node.Own()))
    ensures var was := old(node.At(Moved(gone, s)));
      was == node.At(s) && was.repr == old(was.repr) && was.value == old(was.value) && was.Valid()
  {
    hide TreeNode.Valid, TreeNode.At, InShape, TreeNode.Own, TreeNode.Represents, TakeAt, Moved;
    var t := Moved(gone, s);
    assert old(node.At(t).repr) <= old(node.repr) - old(node.Own());
    assert old(node.At(t)) in old(node.repr) - old(node.Own());
  }

  twostate lemma FootprintWithoutChild(node: TreeNode, new gone: Slot)
    requires LostChild(node, gone)
    requires Unchanged(old(node.repr) - old(node.Own()))
    ensures node.Footprint()
  {
    hide TreeNode.Valid, TreeNode.At, InShape, TreeNode.Represents, TakeAt;
    forall s | node.At(s) != null
      ensures node.At(s) == old(node.At(Moved(gone, s))) && node.At(s).repr == old(node.At(Moved(gone, s)).repr)
    {
      KeptUnchanged(node, gone, s);
    }
  }

  twostate lemma OpenWithoutChild(node: TreeNode, new gone: Slot)
    requires LostChild(node, gone)
    requires Unchanged(old(node.repr) - old(node.Own()))
    ensures Open(node)
  {
    hide TreeNode.Valid;
    FootprintWithoutChild(node, gone);
    RepresentsWithoutChild(node, gone);
    forall s | node.At(s) != null
      ensures node.At(s).Valid()
    {
      KeptUnchanged(node, gone, s);
    }
  }

  twostate lemma RepresentsWithoutChild(node: TreeNode, new gone: Slot)
    requires LostChild(node, gone) && node.Footprint()
    requires Unchanged(old(node.repr) - old(node.Own()))
    ensures node.Represents()
  {
    hide TreeNode.Valid, TreeNode.At, InShape, TakeAt, Moved, ValueAt;
    assert old(ValueAt(node.value, gone)).Some?;
    ValueAtTaken(old(node.value), gone, gone);
    forall s
      ensures ValueAt(node.value, s) == if node.At(s) == null then None else Some(node.At(s).value)
    {
      ValueAtTaken(old(node.value), gone, s);
      if node.At(s) != null {
        KeptUnchanged(node, gone, s);
      }
      assert old(ValueAt(node.value, Moved(gone, s))) ==
        if old(node.At(Moved(gone, s))) == null then None else Some(old(node.At(Moved(gone, s)).value));
    }
  }

  lemma ValueAtTaken(v: Node, gone: Slot, s: Slot)
    requires ValueAt(v, gone).Some? && Sparing(v, gone)
    ensures TakeAt(v, gone).fragment == v.fragment && TakeAt(v, gone).index == v.index && TakeAt(v, gone).peers == v.peers
    ensures ValueAt(TakeAt(v, gone), s) == if s == gone && !gone.Literal? then None else ValueAt(v, Moved(gone, s))
  {
  }

  /** A slot of the last bucket is closed up. */
  method LeaveSlot(ghost buckets: seq<Bucket>, bucket: Bucket, index: nat)
    requires InShape(buckets) && !TailFull(buckets) && bucket == buckets[|buckets| - 1] && index < bucket.depth
    modifies bucket, bucket.children
    ensures InShape(buckets) && bucket.depth == old(bucket.depth) - 1
    ensures forall b: nat, i: nat ::
      LiteralAt(buckets, b, i) == old(LiteralAt(buckets, b, if b == |buckets| - 1 && index <= i then i + 1 else i))
  {
    assert bucket.Shape();
    bucket.children[index] := null;
    forall j | index <= j < bucket.depth {
      bucket.children[j] := bucket.children[j + 1];
    }
    bucket.depth := bucket.depth - 1;
    assert bucket.Shape();
    assert forall j :: 0 <= j < bucket.depth ==> bucket.children[j] == old(bucket.children[if index <= j then j + 1 else j]);
  }

  lemma SparingIsLast(node: TreeNode, slot: Slot)
    requires node.Valid() && InShape(node.buckets) && node.At(slot) != null && slot.Literal? && Sparing(node.value, slot)
    ensures slot.bucket == |node.buckets| - 1 && !TailFull(node.buckets) && slot.i < node.buckets[slot.bucket].depth
    ensures node.buckets[slot.bucket].depth == 1 ==> |node.buckets| == 1
  {
    OwnFacts(node);
    BucketEnd(node, slot.bucket);
    BucketEnd(node, |node.buckets| - 1);
    InUse(node);
  }

  /** The literal child is taken out of the last bucket, and the bucket out of the list when it was the only child. */
  method CloseUp(node: TreeNode, b: nat, i: nat)
    requires InShape(node.buckets) && !TailFull(node.buckets) && b == |node.buckets| - 1 && i < node.buckets[b].depth
    requires node.buckets[b].depth == 1 ==> b == 0
    modifies node`buckets, node.buckets[b], node.buckets[b].children
    ensures InShape(node.buckets) && ObjectsOf(node.buckets) <= old(ObjectsOf(node.buckets))
    ensures node.buckets != [] ==> node.buckets[|node.buckets| - 1].depth > 0
    ensures forall c: nat, j: nat ::
      LiteralAt(node.buckets, c, j) == old(LiteralAt(node.buckets, c, if c == b && i <= j then j + 1 else j))
  {
    var bucket := node.buckets[b];
    LeaveSlot(node.buckets, bucket, i);
    if bucket.depth == 0 {
      assert forall c: nat, j: nat :: LiteralAt(node.buckets, c, j) == null;
      node.buckets := [];
    }
  }

  /** `cb_peer_subscription_tree_remove_node`. */
  method RemoveNode(node: TreeNode, slot: Slot)
    requires node.Valid() && node.At(slot) != null && Sparing(node.value, slot)
    modifies node.Own()
    ensures node.Valid() && node.repr == old(node.repr)
    ensures node.value == TakeAt(old(node.value), slot)
  {
    hide TreeNode.Valid, Sparing, TakeAt, InShape, ArraysOf, ObjectsOf;
    OwnFacts(node);
    if slot.Literal? {
      RemoveLiteral(node, slot);
    } else {
      RemoveWildcard(node, slot);
    }
  }

  method RemoveWildcard(node: TreeNode, slot: Slot)
    requires node.Valid() && !slot.Literal? && node.At(slot) != null
    modifies node
    ensures node.Valid() && node.repr == old(node.repr)
    ensures node.value == TakeAt(old(node.value), slot)
  {
    hide TreeNode.Valid, TreeNode.Represents, TreeNode.Footprint, InShape, LiteralAt, ArraysOf, ObjectsOf, Open, TakeAt;
    OwnFacts(node);
    Opened(node);
    InUse(node);
    NoNodeIsBucket(node, node.buckets);
    if slot == Sharp {
      node.sharp := null;
    } else {
      node.star := null;
    }
    node.value := TakeAt(node.value, slot);
    OpenWithoutChild(node, slot);
    Closed(node);
  }

  twostate lemma AtWithoutLiteral(node: TreeNode, new gone: Slot)
    requires old(InShape(node.buckets)) && InShape(node.buckets) && gone.Literal?
    requires node.sharp == old(node.sharp) && node.star == old(node.star)
    requires forall c: nat, j: nat ::
      LiteralAt(node.buckets, c, j) == old(LiteralAt(node.buckets, c, if c == gone.bucket && gone.i <= j then j + 1 else j))
    ensures forall s :: node.At(s) == old(node.At(Moved(gone, s)))
  {
    hide LiteralAt, InShape, ArraysOf;
  }

  method RemoveLiteral(node: TreeNode, slot: Slot)
    requires node.Valid() && slot.Literal? && node.At(slot) != null && Sparing(node.value, slot)
    modifies node.Own()
    ensures node.Valid() && node.repr == old(node.repr)
    ensures node.value == TakeAt(old(node.value), slot)
  {
    hide TreeNode.Valid, TreeNode.Represents, TreeNode.Footprint, TreeNode.At, TailFull, Moved;
    hide InShape, LiteralAt, ArraysOf, ObjectsOf, Open, TakeAt, Sparing;
    OwnFacts(node);
    Opened(node);
    NoNodeIsBucket(node, node.buckets);
    SparingIsLast(node, slot);
    LastBucket(node);
    CloseUp(node, slot.bucket, slot.i);
    NoNodeIsBucket(node, node.buckets);
    node.value := TakeAt(node.value, slot);
    AtWithoutLiteral(node, slot);
    OpenWithoutChild(node, slot);
    Closed(node);
  }

  /** Replacing the child that adding found or made, through its slot. */
  lemma PutIsWithPlaced(v: Node, f: string, c: Node, d: Node)
    ensures PutAt(PutAt(v, AddSlot(v, f), c), AddSlot(v, f), d) == WithPlaced(v, f, d)
  {
    hide Place;
    var at := Place(v.children, f);
    if at == |v.children| {
      assert (v.children + [c])[at := d] == v.children + [d];
    }
  }

  /** Replacing or taking out the child that was found, through its slot. */
  lemma TakeIsWithChild(v: Node, f: string, d: Node)
    requires Child(v, f).Some? && MayLose(v, f, None)
    ensures TakeAt(PutAt(v, PlaceFor(v, f), d), PlaceFor(v, f)) == WithChild(v, f, None)
    ensures Sparing(PutAt(v, PlaceFor(v, f), d), PlaceFor(v, f))
  {
    hide Find;
  }

  lemma PutIsWithChild(v: Node, f: string, d: Node)
    requires Child(v, f).Some?
    ensures PutAt(v, PlaceFor(v, f), d) == WithChild(v, f, Some(d))
  {
    hide Find;
  }

  /** What is asked of the walk: nothing for adding, and for removing that it finds its wildcards and spares the buckets. */
  predicate Passable(v: Node, id: string, k: Path, adding: bool) {
    adding || (Walkable(v, k) && SparesBuckets(v, id, k))
  }

  /** The child to go on with: for adding it is found or made, for removing it is found or the walk ends. */
  method FindChild(node: TreeNode, id: string, key: Path, fragmentIndex: nat, adding: bool) returns (slot: Option<Slot>)
    requires node.Valid() && Healthy(node.value, fragmentIndex) && fragmentIndex < |key|
    requires Passable(node.value, id, key[fragmentIndex..], adding)
    modifies node.Own()
    ensures node.Valid() && fresh(node.repr - old(node.repr)) && InShape(node.buckets)
    ensures slot.None? ==> !adding && node.value == old(node.value) && Child(node.value, key[fragmentIndex]).None?
    ensures slot.Some? ==> node.At(slot.value) != null
    ensures slot.Some? ==>
      Leading(old(node.value), id, key, fragmentIndex, adding, slot.value, node.value, node.At(slot.value).value)
  {
    hide TreeNode.Valid, TreeNode.Footprint, TreeNode.Represents, Healthy, Walkable, SparesBuckets;
    hide InShape, LiteralAt, ArraysOf, ObjectsOf, Placed;
    OwnFacts(node);
    ghost var v, rest := node.value, key[fragmentIndex..];
    assert rest[0] == key[fragmentIndex] && rest[1..] == key[fragmentIndex + 1..];
    if adding {
      var found := GetOrAddChildNode(node, key, fragmentIndex);
      slot := Some(found);
      OwnFacts(node);
    } else {
      slot := GetChildNode(node, key, fragmentIndex, fragmentIndex);
      OwnFacts(node);
      if slot.Some? {
        FoundFacts(v, id, rest, slot.value);
        SlotIsUsed(node, slot.value);
        ChildFacts(node, slot.value);
      } else {
        NotFound(v, rest[0]);
      }
    }
  }

  /** The slot `slot` of a node, now of value `now`, leads to the child `c` for the fragment at the index. */
  predicate Leading(was: Node, id: string, key: Path, fragmentIndex: nat, adding: bool, slot: Slot, now: Node, c: Node)
    requires fragmentIndex < |key|
  {
    var f := key[fragmentIndex];
    && slot == (if adding then AddSlot(was, f) else PlaceFor(was, f))
    && (if adding then c == PlacedOrFresh(was, f, fragmentIndex) else Child(was, f) == Some(c))
    && now == (if adding then PutAt(was, slot, c) else was)
    && Passable(c, id, key[fragmentIndex + 1..], adding)
  }

  /** What becomes of the parent when the child has become `d`. */
  lemma UpdatedBelow(was: Node, p: Peer, key: Path, fragmentIndex: nat, adding: bool, slot: Slot, now: Node, c: Node, d: Node)
    requires fragmentIndex < |key| && Leading(was, p.id, key, fragmentIndex, adding, slot, now, c)
    requires Passable(was, p.id, key[fragmentIndex..], adding)
    requires d == Updated(c, p, key[fragmentIndex + 1..], fragmentIndex + 1, adding)
    ensures Updated(was, p, key[fragmentIndex..], fragmentIndex, adding) ==
      if Count(d) == 0 then TakeAt(PutAt(now, slot, d), slot) else PutAt(now, slot, d)
    ensures Count(d) == 0 ==> Sparing(PutAt(now, slot, d), slot)
  {
    hide Count, PutAt, TakeAt, AddSlot, PlaceFor, WithChild, WithPlaced, Child, Placed, Walkable, Sparing, MayLose;
    var rest := key[fragmentIndex..];
    assert rest[0] == key[fragmentIndex] && rest[1..] == key[fragmentIndex + 1..];
    if adding {
      AddIsLive(c, p, rest[1..], fragmentIndex + 1);
      PutIsWithPlaced(was, rest[0], c, d);
    } else if Count(d) == 0 {
      TakeIsWithChild(was, rest[0], d);
    } else {
      PutIsWithChild(was, rest[0], d);
    }
  }

  function Updated(v: Node, p: Peer, k: Path, depth: nat, adding: bool): Node {
    if adding then Add(v, p, k, depth) else Remove(v, p.id, k)
  }

  /** `cb_peer_subscription_tree_update_node`, with the two pairs of functions that it is called with: for adding, a child is
      found or made and the peer is inserted; for removing, a child is found and the peer is removed. */
  method UpdateNode(root: TreeNode, node: TreeNode, p: Peer, key: Path, fragmentIndex: nat, adding: bool)
    requires node.Valid() && Healthy(node.value, fragmentIndex)
    requires key != [] && fragmentIndex <= |key| && IsAtDepth(root, node, fragmentIndex) && (node != root ==> root !in node.repr)
    requires Passable(node.value, p.id, key[fragmentIndex..], adding)
    modifies node.repr
    ensures node.Valid() && fresh(node.repr - old(node.repr))
    ensures node.value == Updated(old(node.value), p, key[fragmentIndex..], fragmentIndex, adding)
    decreases |key| - fragmentIndex, 1
  {
    hide TreeNode.Valid, TreeNode.Footprint, TreeNode.Represents, InShape, LiteralAt, ArraysOf, ObjectsOf, WidthOf;
    hide Healthy, Passable, Leading, Updated, Count, PutAt, TakeAt, Sparing;
    OwnFacts(node);
    if IsLeaf(root, node, key) {
      assert key[fragmentIndex..] == [];
      UpdatePeers(node, p, adding);
      UpdatedAtLeaf(old(node.value), p, fragmentIndex, adding);
      return;
    }
    ghost var v := node.value;
    var slot := FindChild(node, p.id, key, fragmentIndex, adding);
    OwnFacts(node);
    if slot.None? {
      NoChildNoRemoval(v, p, key, fragmentIndex);
      return;
    }
    ghost var now, c := node.value, node.At(slot.value).value;
    BelowFacts(v, p.id, key, fragmentIndex, adding, slot.value, now, c);
    ChildFacts(node, slot.value);
    OwnFacts(node.At(slot.value));
    var child := UpdateBelow(root, node, slot.value, p, key, fragmentIndex, adding);
    UpdatedBelow(v, p, key, fragmentIndex, adding, slot.value, now, c, child.value);
    OwnFacts(node);
    var count := NodeCount(child);
    if count == 0 {
      OwnFacts(node);
      ValueAtPut(now, slot.value, child.value, slot.value);
      SlotIsUsed(node, slot.value);
      RemoveNode(node, slot.value);
    }
  }

  lemma UpdatedAtLeaf(v: Node, p: Peer, depth: nat, adding: bool)
    ensures Updated(v, p, [], depth, adding) == v.(peers := if adding then Insert(v.peers, p) else Delete(v.peers, p.id))
  {
  }

  lemma BelowFacts(was: Node, id: string, key: Path, fragmentIndex: nat, adding: bool, slot: Slot, now: Node, c: Node)
    requires Healthy(was, fragmentIndex) && fragmentIndex < |key| && Leading(was, id, key, fragmentIndex, adding, slot, now, c)
    ensures Healthy(c, fragmentIndex + 1) && c.index == fragmentIndex && InRange(now, slot)
    ensures Passable(c, id, key[fragmentIndex + 1..], adding)
  {
    hide Passable, Find, Place;
    ChildIsHealthy(was, fragmentIndex, key[fragmentIndex]);
    NothingAtFresh(key[fragmentIndex], fragmentIndex, []);
  }

  lemma NoChildNoRemoval(v: Node, p: Peer, key: Path, fragmentIndex: nat)
    requires fragmentIndex < |key| && Child(v, key[fragmentIndex]).None?
    ensures Updated(v, p, key[fragmentIndex..], fragmentIndex, false) == v
  {
  }

  /** The update of a child, seen from its parent. */
  method UpdateBelow(root: TreeNode, node: TreeNode, slot: Slot, p: Peer, key: Path, fragmentIndex: nat, adding: bool)
    returns (child: TreeNode)
    requires node.Valid() && InRange(node.value, slot) && node.At(slot) != null && Healthy(node.At(slot).value, fragmentIndex + 1)
    requires fragmentIndex < |key| && node.At(slot).index == fragmentIndex && (node != root ==> root !in node.repr)
    requires Passable(node.At(slot).value, p.id, key[fragmentIndex + 1..], adding)
    modifies node.repr
    ensures node.Valid() && fresh(node.repr - old(node.repr)) && node.At(slot) == child == old(node.At(slot)) && child.Valid()
    ensures node.value == PutAt(old(node.value), slot, child.value)
    ensures child.value == Updated(old(node.At(slot).value), p, key[fragmentIndex + 1..], fragmentIndex + 1, adding)
    decreases |key| - fragmentIndex, 0
  {
    hide TreeNode.Valid, TreeNode.Represents, TreeNode.Footprint, Open, InShape, LiteralAt, ArraysOf, ObjectsOf;
    hide TreeNode.At, Healthy, Passable, Updated, PutAt;
    OwnFacts(node);
    NoNodeIsBucket(node, node.buckets);
    ChildFacts(node, slot);
    child := node.At(slot);
    OwnFacts(child);
    Opened(node);
    InUse(node);
    LastInOwn(node);
    label Before:
    UpdateNode(root, child, p, key, fragmentIndex + 1, adding);
    OwnFacts(child);
    node.repr := node.repr + child.repr;
    node.value := PutAt(node.value, slot, child.value);
    SlotsKept@Before(node);
    OpenAfter@Before(node, slot, child);
    Closed(node);
  }

  /** As long as the buckets are left alone, the slots are. */
  twostate lemma SlotsKept(node: TreeNode)
    requires old(InShape(node.buckets)) && Unchanged(old(ObjectsOf(node.buckets)))
    requires node.buckets == old(node.buckets) && node.sharp == old(node.sharp) && node.star == old(node.star)
    ensures InShape(node.buckets) && forall t :: node.At(t) == old(node.At(t))
  {
    NoNodeIsBucket(node, node.buckets);
    hide InShape, LiteralAt, ArraysOf, ObjectsOf;
  }

  lemma LastInOwn(node: TreeNode)
    requires node.Valid()
    ensures node.buckets != [] ==> node.buckets[|node.buckets| - 1] in node.Own()
  {
  }

  lemma FoundFacts(v: Node, id: string, k: Path, slot: Slot)
    requires k != [] && SlotFor(v, k[0], k[0]) == Some(slot) && Passable(v, id, k, false)
    ensures PlaceFor(v, k[0]) == slot && ValueAt(v, slot) == Child(v, k[0]) && Child(v, k[0]).Some?
    ensures Passable(Child(v, k[0]).value, id, k[1..], false)
  {
    hide MayLose, Find;
  }

  lemma NotFound(v: Node, f: string)
    requires SlotFor(v, f, f).None?
    ensures Child(v, f).None?
  {
  }

  /** The peer list of the node itself. */
  method UpdatePeers(node: TreeNode, p: Peer, adding: bool)
    requires node.Valid()
    modifies node
    ensures node.Valid() && node.repr == old(node.repr)
    ensures node.value == old(node.value).(
      peers := if adding then Insert(old(node.value.peers), p) else Delete(old(node.value.peers), p.id))
  {
    hide TreeNode.Valid, TreeNode.At, InShape, LiteralAt, ArraysOf, ObjectsOf;
    OwnFacts(node);
    NoNodeIsBucket(node, node.buckets);
    LastInOwn(node);
    Opened(node);
    InUse(node);
    if adding {
      node.peers := InsertPeer(node.peers, p);
    } else {
      node.peers := Delete(node.peers, p.id);
    }
    node.value := node.value.(peers := node.peers);
    SlotsKept(node);
    forall s | node.At(s) != null
      ensures node.At(s) == old(node.At(s)) && node.At(s).repr == old(node.At(s).repr)
      ensures node.At(s).value == old(node.At(s).value) && node.At(s).Valid()
    {
    }
    assert node.Footprint();
    forall s
      ensures ValueAt(node.value, s) == old(ValueAt(node.value, s))
    {
    }
    Closed(node);
  }

  // ----- the tree -----

  /** `cb_peer_subscription_tree`, with the registry of the subscriptions that it stands for. */
  class PeerSubscriptionTree {
    const root: TreeNode
    var peersMatchingAll: seq<Peer>
    ghost var subs: Registry

    ghost predicate Valid()
      reads this, root, root.repr
    {
      root.Valid() && root.index == 0 && this !in root.repr && Sound(Value()) && Agrees(Value(), subs)
    }

    ghost function Value(): Tree
      reads this, root
    {
      Tree(root.value, peersMatchingAll)
    }

    /** `cb_peer_subscription_tree_init`. */
    constructor ()
      ensures Valid() && subs == map[] && Value() == EmptyTree() && fresh(root.repr)
    {
      root := new TreeNode("", 0);
      peersMatchingAll, subs := [], map[];
      new;
      EmptyAgrees();
    }

    /** `cb_peer_subscription_tree_add`. */
    method AddPeer(p: Peer, key: Key)
      requires Valid() && Allowed(Value(), Subscribing(p, key))
      modifies this, root.repr
      ensures Valid() && fresh(root.repr - old(root.repr))
      ensures subs == old(subs)[Sub(Flat(key), p.id) := p]
      ensures Value() == Subscribe(old(Value()), p, key)
    {
      hide TreeNode.Valid, Sound, Agrees, Healthy, InLastBuckets, Walkable, SparesBuckets, Add, Remove;
      SoundIsHealthy(Value());
      StepAgrees(Value(), subs, Subscribing(p, key));
      if IsEmpty(key) {
        peersMatchingAll := InsertPeer(peersMatchingAll, p);
      } else {
        assert key.value[0..] == key.value;
        UpdateNode(root, root, p, key.value, 0, true);
      }
      subs := Register(subs, Subscribing(p, key));
    }

    /** `cb_peer_subscription_tree_remove`. */
    method RemovePeer(p: Peer, key: Key)
      requires Valid() && Allowed(Value(), Unsubscribing(p.id, key))
      modifies this, root.repr
      ensures Valid() && fresh(root.repr - old(root.repr))
      ensures subs == old(subs) - {Sub(Flat(key), p.id)}
      ensures Value() == Unsubscribe(old(Value()), p.id, key)
    {
      hide TreeNode.Valid, Sound, Agrees, Healthy, InLastBuckets, Walkable, SparesBuckets, Add, Remove;
      SoundIsHealthy(Value());
      StepAgrees(Value(), subs, Unsubscribing(p.id, key));
      if IsEmpty(key) {
        peersMatchingAll := Delete(peersMatchingAll, p.id);
      } else {
        assert key.value[0..] == key.value;
        UpdateNode(root, root, p, key.value, 0, false);
      }
      subs := Register(subs, Unsubscribing(p.id, key));
    }

    /** `cb_peer_subscription_tree_get_peers`. */
    method GetPeers(key: Key) returns (peers: seq<Peer>)
      requires Valid() && ValidKey(key)
      ensures peers == Lookup(Value(), key)
      ensures !IsEmpty(key) && WildsLast(key.value[0], key.value) ==> Answers(subs, key.value, peers)
      ensures IsEmpty(key) ==> Distinct(peers) && forall id :: Has(peers, id) <==> exists s :: s in subs && s.id == id
    {
      hide TreeNode.Valid, Sound, Agrees, Healthy, Answers, Offered, All, Offer, WildsLast;
      SoundIsHealthy(Value());
      var collector := new Collector(if key.None? then [] else key.value);
      collector.peers := OfferPeers(collector.peers, peersMatchingAll);
      if IsEmpty(key) {
        CollectAll(collector, root);
        EmptyLookupAnswers(Value(), subs, key);
      } else {
        assert key.value[0..] == key.value;
        Collect(collector, root, root, 0);
        if WildsLast(key.value[0], key.value) {
          LookupAnswers(Value(), subs, key.value);
        }
      }
      peers := collector.peers;
    }
  }

  lemma SoundIsHealthy(t: Tree)
    requires Sound(t)
    ensures Healthy(t.root, 0)
  {
  }
}
