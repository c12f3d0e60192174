/** The counters, queues and loops of the dispatcher as the code changes them in place: what one thread does without others. */
module Dispatcher {
  import opened Dispatch

  // ----- the counter of a message -----

  /** The remaining handlers, and how often the continuation ran. */
  datatype Counter = Counter(remaining: nat, runs: nat)

  /** One handler less, and the continuation when that was the last. */
  function HandledOnce(c: Counter): Counter {
    var remaining := (c.remaining - 1) % COUNT_LIMIT;
    Counter(remaining, if remaining == 0 then c.runs + 1 else c.runs)
  }

  function HandledTimes(c: Counter, n: nat): Counter {
    if n == 0 then c else HandledOnce(HandledTimes(c, n - 1))
  }

  /** The continuation runs with the last of the handlers that were counted, and not before. */
  lemma {:induction false} HandledRunsAtZero(count: nat, runs: nat, n: nat)
    requires n <= count < COUNT_LIMIT
    ensures HandledTimes(Counter(count, runs), n) == Counter(count - n, if 0 < n == count then runs + 1 else runs)
  {
    if n == 0 {
    } else {
      HandledRunsAtZero(count, runs, n - 1);
    }
  }

  /** `cb_message_dispatch`. */
  class MessageDispatch {
    var remaining: nat
    var runs: nat

    ghost function Value(): Counter
      reads this
    {
      Counter(remaining, runs)
    }

    constructor ()
      ensures Value() == Counter(0, 0)
    {
      remaining, runs := 0, 0;
    }

    method Continuation()
      modifies this`runs
      ensures runs == old(runs) + 1
    {
      runs := runs + 1;
    }

    /** `cb_message_dispatch_set_count`. */
    method SetCount(count: nat)
      modifies this`remaining
      ensures remaining == count % COUNT_LIMIT
    {
      remaining := count % COUNT_LIMIT;
    }

    /** `cb_message_dispatch_set_ignored`. */
    method SetIgnored()
      modifies this`runs
      ensures runs == old(runs) + 1
    {
      Continuation();
    }

    /** `cb_message_dispatch_set_handled`: the counter is fetched and decremented, and the result decides. */
    method SetHandled()
      modifies this
      ensures Value() == HandledOnce(old(Value()))
    {
      var fetched := remaining;
      remaining := (fetched - 1) % COUNT_LIMIT;
      if remaining == 0 {
        Continuation();
      }
    }
  }

  // ----- queues -----

  /** `cb_dispatch_queue_entry`: without a message it is the stop sentinel. */
  class QueueEntry {
    const dispatch: MessageDispatch?
    const handler: nat
    var next: QueueEntry?

    constructor (dispatch: MessageDispatch?, handler: nat)
      ensures this.dispatch == dispatch && this.handler == handler && next == null
    {
      this.dispatch, this.handler, next := dispatch, handler, null;
    }
  }

  /** The entries are linked from the first to the last. */
  ghost predicate Chain(first: QueueEntry?, entries: seq<QueueEntry>)
    reads entries
  {
    && (if entries == [] then first == null else first == entries[0] && entries[|entries| - 1].next == null)
    && (forall i :: 0 <= i < |entries| - 1 ==> entries[i].next == entries[i + 1])
    && (forall i, j :: 0 <= i < j < |entries| ==> entries[i] != entries[j])
  }

  /** `cb_dispatch_queue_impl`. */
  class DispatchQueue {
    var head: QueueEntry?
    var tail: QueueEntry?
    var running: bool
    ghost var entries: seq<QueueEntry>

    ghost var repr: set<object>

    ghost predicate Valid()
      reads this, repr
    {
      && this in repr && (forall e <- entries :: e in repr)
      && Chain(head, entries) && tail == if entries == [] then null else entries[|entries| - 1]
    }

    constructor ()
      ensures Valid() && entries == [] && !running && repr == {this}
    {
      head, tail, running, entries := null, null, false, [];
      repr := {this};
    }

    /** `cb_dispatch_queue_impl_enqueue_entry`, under the mutex. */
    method EnqueueEntry(entry: QueueEntry)
      requires Valid() && entry.next == null && entry !in entries
      modifies repr
      ensures Valid() && entries == old(entries) + [entry] && running == old(running) && repr == old(repr) + {entry}
    {
      if head == null {
        head, tail := entry, entry;
      } else {
        tail.next := entry;
        tail := entry;
      }
      entries := entries + [entry];
      repr := repr + {entry};
    }

    /** What the worker takes under the mutex: the whole list, which is empty from then on. */
    method Detach() returns (first: QueueEntry?, ghost batch: seq<QueueEntry>)
      requires Valid()
      modifies this
      ensures Valid() && repr == old(repr) && entries == [] && batch == old(entries) && Chain(first, batch)
    {
      first, batch := head, entries;
      head, tail := null, null;
      entries := [];
    }

    /** `cb_dispatch_queue_impl_stop`, up to the join: one sentinel for each start. */
    method Stop()
      requires Valid()
      modifies repr
      ensures Valid() && !running && fresh(repr - old(repr))
      ensures if old(running) then |entries| == |old(entries)| + 1 && old(entries) <= entries && entries[|entries| - 1].dispatch == null
        else entries == old(entries)
    {
      if !running {
        return;
      }
      running := false;
      var sentinel := new QueueEntry(null, 0);
      EnqueueEntry(sentinel);
    }
  }

  // ----- the worker -----

  /** How many of the entries are for the message. */
  ghost function TimesIn(entries: seq<QueueEntry>, d: MessageDispatch): nat {
    if entries == [] then 0
    else TimesIn(entries[..|entries| - 1], d) + if entries[|entries| - 1].dispatch == d then 1 else 0
  }

  lemma TimesInStep(entries: seq<QueueEntry>, e: QueueEntry)
    ensures forall d: MessageDispatch :: TimesIn(entries + [e], d) == TimesIn(entries, d) + if e.dispatch == d then 1 else 0
  {
    assert (entries + [e])[..|entries|] == entries;
  }

  lemma NoneYet()
    ensures forall d: MessageDispatch :: TimesIn([], d) == 0
    ensures forall c :: HandledTimes(c, 0) == c
  {
  }

  lemma TimesNext(c: Counter, n: nat)
    ensures HandledTimes(c, n + 1) == HandledOnce(HandledTimes(c, n))
  {
  }

  /** The counters of the messages are what the handled entries have made of those at the start. */
  ghost predicate HandledSo(messages: set<MessageDispatch>, start: map<MessageDispatch, Counter>, handled: seq<QueueEntry>)
    requires messages <= start.Keys
    reads messages
  {
    forall d <- messages :: d.Value() == HandledTimes(start[d], TimesIn(handled, d))
  }

  lemma NextInChain(first: QueueEntry?, batch: seq<QueueEntry>, n: nat)
    requires Chain(first, batch) && n <= |batch|
    ensures first == if batch == [] then null else batch[0]
    ensures n < |batch| ==> batch[n].next == if n + 1 < |batch| then batch[n + 1] else null
  {
  }

  /** One entry is handled. */
  method HandleEntry(entry: QueueEntry, d: MessageDispatch, ghost messages: set<MessageDispatch>,
                     ghost start: map<MessageDispatch, Counter>, ghost handled: seq<QueueEntry>)
    requires entry.dispatch == d && d in messages && messages <= start.Keys && HandledSo(messages, start, handled)
    modifies d
    ensures HandledSo(messages, start, handled + [entry])
  {
    hide TimesIn, HandledOnce, HandledTimes;
    TimesNext(start[d], TimesIn(handled, d));
    d.SetHandled();
    TimesInStep(handled, entry);
  }

  /** The inner loop of `cb_dispatch_queue_impl_thread`: the entries are handled in order, up to a sentinel. */
  method RunBatch(first: QueueEntry?, ghost batch: seq<QueueEntry>, ghost messages: set<MessageDispatch>)
    returns (running: bool, ghost handled: seq<QueueEntry>)
    requires Chain(first, batch) && forall e <- batch :: e.dispatch != null ==> e.dispatch in messages
    modifies messages
    ensures handled <= batch && forall e <- handled :: e.dispatch != null
    ensures running <==> |handled| == |batch|
    ensures !running ==> batch[|handled|].dispatch == null
    ensures forall d <- messages :: d.Value() == HandledTimes(old(d.Value()), TimesIn(handled, d))
  {
    hide TimesIn, HandledOnce, HandledTimes, Chain;
    NoneYet();
    running, handled := true, [];
    ghost var start := map d | d in messages :: d.Value();
    var entry := first;
    ghost var n := 0;
    NextInChain(first, batch, 0);
    while entry != null
      invariant n <= |batch| && handled == batch[..n] && entry == if n < |batch| then batch[n] else null
      invariant forall e <- handled :: e.dispatch != null
      invariant HandledSo(messages, start, handled)
      decreases |batch| - n
    {
      NextInChain(first, batch, n);
      if entry.dispatch == null {
        running := false;
        break;
      }
      HandleEntry(entry, entry.dispatch, messages, start, handled);
      handled, n := handled + [entry], n + 1;
      entry := entry.next;
    }
  }

  // ----- the dispatcher -----

  /** `cb_message_handler_invoker`, by the name of its queue. */
  datatype Invoker = Invoker(dispatchQueue: string)

  /** A dispatch queue of the dispatcher under its name. */
  datatype NamedQueue = NamedQueue(name: string, queue: DispatchQueue)

  /** The first queue of that name from place `i` on, or the number of queues. */
  function QueueFrom(queues: seq<NamedQueue>, name: string, i: nat): (r: nat)
    requires i <= |queues|
    ensures i <= r <= |queues| && (r < |queues| ==> queues[r].name == name)
    ensures forall j :: i <= j < r ==> queues[j].name != name
    decreases |queues| - i
  {
    if i == |queues| || queues[i].name == name then i else QueueFrom(queues, name, i + 1)
  }

  function FindQueue(queues: seq<NamedQueue>, name: string): nat {
    QueueFrom(queues, name, 0)
  }

  /** `cb_message_dispatch_impl_get_dispatch_queue`. */
  method GetDispatchQueue(queues: seq<NamedQueue>, name: string) returns (queue: DispatchQueue?)
    ensures var i := FindQueue(queues, name); queue == if i < |queues| then queues[i].queue else null
  {
    var i := 0;
    while i < |queues|
      invariant i <= |queues| && forall j :: 0 <= j < i ==> queues[j].name != name
    {
      if queues[i].name == name {
        return queues[i].queue;
      }
      i := i + 1;
    }
    queue := null;
  }

  /** The queues and all their entries are among the objects, and no two queues share any. */
  ghost predicate AllValid(queues: seq<NamedQueue>, objects: set<object>)
    reads objects
  {
    && (forall k :: 0 <= k < |queues| ==> queues[k].queue in objects && queues[k].queue.repr <= objects && queues[k].queue.Valid())
    && (forall j, k :: 0 <= j < k < |queues| ==> queues[j].queue.repr !! queues[k].queue.repr)
  }

  /** What an entry is for. */
  datatype Work = Work(dispatch: MessageDispatch?, handler: nat)

  ghost function WorkOf(entries: seq<QueueEntry>): seq<Work> {
    seq(|entries|, i requires 0 <= i < |entries| => Work(entries[i].dispatch, entries[i].handler))
  }

  /** What a queue gets of an invoker: an entry if it is the first queue of that name. */
  function Routed(queues: seq<NamedQueue>, k: nat, invoker: Invoker, d: MessageDispatch, handler: nat): seq<Work> {
    if FindQueue(queues, invoker.dispatchQueue) == k then [Work(d, handler)] else []
  }

  /** The invokers that a queue gets, in their order. */
  function RoutedTo(queues: seq<NamedQueue>, k: nat, invokers: seq<Invoker>, n: nat, d: MessageDispatch): seq<Work>
    requires n <= |invokers|
  {
    if n == 0 then []
    else RoutedTo(queues, k, invokers, n - 1, d) + Routed(queues, k, invokers[n - 1], d, n - 1)
  }

  /** `cb_message_dispatcher_impl_dispatch_one`: an entry on the queue of that name; for an unknown name there is none. */
  method DispatchOne(queues: seq<NamedQueue>, d: MessageDispatch, invoker: Invoker, handler: nat, ghost objects: set<object>)
    returns (ghost now: set<object>)
    requires AllValid(queues, objects)
    modifies objects
    ensures AllValid(queues, now) && fresh(now - objects)
    ensures forall k :: 0 <= k < |queues| ==>
      WorkOf(queues[k].queue.entries) == old(WorkOf(queues[k].queue.entries)) + Routed(queues, k, invoker, d, handler)
  {
    hide FindQueue;
    now := objects;
    var queue := GetDispatchQueue(queues, invoker.dispatchQueue);
    if queue == null {
      return;
    }
    var entry := new QueueEntry(d, handler);
    queue.EnqueueEntry(entry);
    now := objects + {entry};
  }

  /** `cb_message_dispatcher_impl_dispatch_all`: without invokers the message is ignored; otherwise its counter is set first, and
      then every queue gets the invokers of its name in their order. */
  method DispatchAll(queues: seq<NamedQueue>, d: MessageDispatch, invokers: seq<Invoker>, ghost objects: set<object>)
    returns (ghost now: set<object>)
    requires AllValid(queues, objects) && d !in objects
    modifies objects, d
    ensures AllValid(queues, now) && fresh(now - objects)
    ensures invokers == [] ==> d.Value() == old(d.Value()).(runs := old(d.runs) + 1)
    ensures invokers != [] ==> d.Value() == old(d.Value()).(remaining := |invokers| % COUNT_LIMIT)
    ensures forall k :: 0 <= k < |queues| ==>
      WorkOf(queues[k].queue.entries) == old(WorkOf(queues[k].queue.entries)) + RoutedTo(queues, k, invokers, |invokers|, d)
  {
    hide FindQueue, WorkOf, Routed;
    now := objects;
    if invokers == [] {
      d.SetIgnored();
      return;
    }
    d.SetCount(|invokers|);
    var i := 0;
    while i < |invokers|
      invariant i <= |invokers| && AllValid(queues, now) && fresh(now - objects)
      invariant d.Value() == old(d.Value()).(remaining := |invokers| % COUNT_LIMIT)
      invariant forall k :: 0 <= k < |queues| ==>
        WorkOf(queues[k].queue.entries) == old(WorkOf(queues[k].queue.entries)) + RoutedTo(queues, k, invokers, i, d)
    {
      now := DispatchOne(queues, d, invokers[i], i, now);
      i := i + 1;
    }
  }

  /** Every invoker whose queue exists is on exactly one queue, in its place; those of unknown queues are on none. */
  lemma {:induction false} RoutedOnce(queues: seq<NamedQueue>, k: nat, invokers: seq<Invoker>, n: nat, d: MessageDispatch, h: nat)
    requires n <= |invokers| && k < |queues|
    ensures Work(d, h) in RoutedTo(queues, k, invokers, n, d) <==> h < n && FindQueue(queues, invokers[h].dispatchQueue) == k
    ensures forall w <- RoutedTo(queues, k, invokers, n, d) :: w.handler < n
    ensures forall i, j :: 0 <= i < j < |RoutedTo(queues, k, invokers, n, d)| ==>
      RoutedTo(queues, k, invokers, n, d)[i].handler < RoutedTo(queues, k, invokers, n, d)[j].handler
  {
    hide FindQueue;
    if n == 0 {
    } else {
      RoutedOnce(queues, k, invokers, n - 1, d, h);
    }
  }
}
