/** The dispatch protocol as interleaved steps of dispatchers, queue owners and workers. */
module Dispatch {
  import opened Options

  // ----- the state -----

  /** An entry of a queue: a handler of a message, by its place in the message's list of invokers, or the stop sentinel. */
  datatype Entry = Handler(message: nat, handler: nat) | Sentinel

  /** Where a worker is: before its thread is started, at the wait, in the inner loop, between the return of a handler and the
      decrement, between a decrement to zero and the continuation, or at its end. */
  datatype Worker = NotStarted | Waiting | Draining | Returned | Finishing | Stopped

  /** What became of an entry that is not on the queue any more: its worker is done with it, or it was left in the batch of a
      worker that ended. */
  datatype Fate = Done(entry: Entry) | Dropped(entry: Entry)

  /** A queue with its shared list and its worker's detached batch. The worker's current entry is the head of the batch.
      `handled` records the entries that a worker is done with, `past` all that are gone, and `history` all that were ever
      enqueued. */
  datatype Queue = Queue(worker: Worker, running: bool, shared: seq<Entry>, batch: seq<Entry>,
                         handled: seq<Entry>, past: seq<Fate>, history: seq<Entry>)

  /** A message: `next` invokers are dispatched, unless dispatching has not begun; `remaining` is the shared counter, `runs` counts
      the runs of the continuation, and `returned` and `done` are the handlers that returned and those that decremented. */
  datatype Message = Message(next: Option<nat>, remaining: nat, runs: nat, returned: set<nat>, done: set<nat>)

  datatype System = System(messages: seq<Message>, queues: seq<Queue>)

  /** The queue names in the invoker lists of the messages: a name beyond the queues is that of no queue. */
  type Plan = seq<seq<nat>>

  datatype Step =
    | Begin(m: nat)
    | DispatchOne(m: nat)
    | Start(q: nat)
    | Stop(q: nat)
    | Detach(q: nat)
    | BatchEnds(q: nat)
    | SentinelSeen(q: nat)
    | HandlerReturns(q: nat)
    | Decrement(q: nat)
    | Continue(q: nat)

  function InitialQueue(): Queue {
    Queue(NotStarted, false, [], [], [], [], [])
  }

  function InitialMessage(): Message {
    Message(None, 0, 0, {}, {})
  }

  predicate Initial(plan: Plan, s: System) {
    && |s.messages| == |plan|
    && (forall m :: 0 <= m < |s.messages| ==> s.messages[m] == InitialMessage())
    && (forall q :: 0 <= q < |s.queues| ==> s.queues[q] == InitialQueue())
  }

  // ----- the steps -----

  function Enqueue(q: Queue, e: Entry): Queue {
    q.(shared := q.shared + [e], history := q.history + [e])
  }

  /** The worker is done with its current entry. */
  function Pop(q: Queue): Queue
    requires q.batch != []
  {
    q.(worker := Draining, batch := q.batch[1..], handled := q.handled + [q.batch[0]], past := q.past + [Done(q.batch[0])])
  }

  function Drop(es: seq<Entry>): (fates: seq<Fate>)
    ensures |fates| == |es| && forall i :: 0 <= i < |es| ==> fates[i] == Dropped(es[i])
  {
    seq(|es|, i requires 0 <= i < |es| => Dropped(es[i]))
  }

  /** A thread is started: what its predecessor has left of its batch is nobody's. */
  function Started(q: Queue): Queue {
    q.(worker := Waiting, running := true, batch := [], past := q.past + Drop(q.batch))
  }

  predicate AtHandler(s: System, q: nat, worker: Worker) {
    && q < |s.queues| && s.queues[q].worker == worker && s.queues[q].batch != []
    && s.queues[q].batch[0].Handler? && s.queues[q].batch[0].message < |s.messages|
  }

  predicate Enabled(plan: Plan, s: System, step: Step)
    requires |s.messages| == |plan|
  {
    match step
    case Begin(m) => m < |plan| && s.messages[m].next.None?
    case DispatchOne(m) => m < |plan| && s.messages[m].next.Some? && s.messages[m].next.value < |plan[m]|
    case Start(q) => q < |s.queues| && !s.queues[q].running && s.queues[q].worker in {NotStarted, Stopped}
    case Stop(q) => q < |s.queues| && s.queues[q].running
    case Detach(q) => q < |s.queues| && s.queues[q].worker == Waiting
    case BatchEnds(q) => q < |s.queues| && s.queues[q].worker == Draining && s.queues[q].batch == []
    case SentinelSeen(q) => q < |s.queues| && s.queues[q].worker == Draining && s.queues[q].batch != [] && s.queues[q].batch[0].Sentinel?
    case HandlerReturns(q) => AtHandler(s, q, Draining)
    case Decrement(q) => AtHandler(s, q, Returned)
    case Continue(q) => AtHandler(s, q, Finishing)
  }

  const COUNT_LIMIT: nat := 0x1_0000_0000_0000_0000

  function WithMessage(s: System, m: nat, msg: Message): System
    requires m < |s.messages|
  {
    s.(messages := s.messages[m := msg])
  }

  function WithQueue(s: System, q: nat, queue: Queue): System
    requires q < |s.queues|
  {
    s.(queues := s.queues[q := queue])
  }

  function Next(plan: Plan, s: System, step: Step): System
    requires |s.messages| == |plan| && Enabled(plan, s, step)
  {
    match step
    case Begin(m) =>
      // no invokers: the message is ignored and its continuation runs; otherwise the counter is set before anything is enqueued
      var msg := s.messages[m];
      if plan[m] == [] then WithMessage(s, m, msg.(next := Some(0), runs := msg.runs + 1))
      else WithMessage(s, m, msg.(next := Some(0), remaining := |plan[m]| % COUNT_LIMIT))
    case DispatchOne(m) =>
      // an unknown queue is logged and the entry is dropped
      var msg := s.messages[m];
      var i := msg.next.value;
      var t := WithMessage(s, m, msg.(next := Some(i + 1)));
      var q := plan[m][i];
      if q < |s.queues| then WithQueue(t, q, Enqueue(s.queues[q], Handler(m, i))) else t
    case Start(q) => WithQueue(s, q, Started(s.queues[q]))
    case Stop(q) => WithQueue(s, q, Enqueue(s.queues[q], Sentinel).(running := false))
    case Detach(q) => WithQueue(s, q, s.queues[q].(worker := Draining, batch := s.queues[q].shared, shared := []))
    case BatchEnds(q) => WithQueue(s, q, s.queues[q].(worker := Waiting))
    case SentinelSeen(q) => WithQueue(s, q, s.queues[q].(worker := Stopped))
    case HandlerReturns(q) =>
      var e := s.queues[q].batch[0];
      var msg := s.messages[e.message];
      WithQueue(WithMessage(s, e.message, msg.(returned := msg.returned + {e.handler})), q, s.queues[q].(worker := Returned))
    case Decrement(q) =>
      var e := s.queues[q].batch[0];
      var msg := s.messages[e.message];
      var remaining := (msg.remaining - 1) % COUNT_LIMIT;
      var t := WithMessage(s, e.message, msg.(remaining := remaining, done := msg.done + {e.handler}));
      WithQueue(t, q, if remaining == 0 then s.queues[q].(worker := Finishing) else Pop(s.queues[q]))
    case Continue(q) =>
      var e := s.queues[q].batch[0];
      var msg := s.messages[e.message];
      WithQueue(WithMessage(s, e.message, msg.(runs := msg.runs + 1)), q, Pop(s.queues[q]))
  }

  // ----- the invariant -----

  function EntriesOf(past: seq<Fate>): (es: seq<Entry>)
    ensures |es| == |past| && forall i :: 0 <= i < |past| ==> es[i] == past[i].entry
  {
    seq(|past|, i requires 0 <= i < |past| => past[i].entry)
  }

  function DoneOf(past: seq<Fate>): seq<Entry> {
    if past == [] then []
    else DoneOf(past[..|past| - 1]) + if past[|past| - 1].Done? then [past[|past| - 1].entry] else []
  }

  /** A dropped entry is a sentinel, or comes behind one with nothing that was done in between. */
  ghost predicate DroppedBehindSentinel(past: seq<Fate>, i: int) {
    exists j :: 0 <= j <= i < |past| && past[j] == Dropped(Sentinel) && forall k :: j <= k <= i ==> past[k].Dropped?
  }

  ghost predicate WellDropped(past: seq<Fate>) {
    && (forall i :: 0 <= i < |past| && past[i].Done? ==> past[i].entry.Handler?)
    && (forall i :: 0 <= i < |past| && past[i].Dropped? ==> DroppedBehindSentinel(past, i))
  }

  /** Nothing is duplicated or reordered on a queue, what was handled are handlers only, and nothing is lost but the sentinel and
      what was behind it in its batch. */
  ghost predicate Conserved(queue: Queue) {
    && EntriesOf(queue.past) + queue.batch + queue.shared == queue.history
    && queue.handled == DoneOf(queue.past) && WellDropped(queue.past)
    && (queue.worker == Stopped ==> queue.batch != [] && queue.batch[0].Sentinel?)
    && (queue.worker == NotStarted || queue.worker == Waiting ==> queue.batch == [])
    && (queue.worker == Returned || queue.worker == Finishing ==> queue.batch != [] && queue.batch[0].Handler?)
  }

  /** Every handler's entry is enqueued once, on its own queue, when it is dispatched. */
  ghost predicate Placed(plan: Plan, s: System, q: nat)
    requires |s.messages| == |plan| && q < |s.queues|
  {
    var h := s.queues[q].history;
    && (forall i :: 0 <= i < |h| && h[i].Handler? ==> IsDispatched(plan, s, q, h[i]))
    && (forall i, j :: 0 <= i < j < |h| && h[i].Handler? ==> h[i] != h[j])
  }

  ghost predicate IsDispatched(plan: Plan, s: System, q: nat, e: Entry)
    requires |s.messages| == |plan| && e.Handler?
  {
    && e.message < |plan| && e.handler < |plan[e.message]| && plan[e.message][e.handler] == q
    && s.messages[e.message].next.Some? && e.handler < s.messages[e.message].next.value
  }

  ghost predicate AllEnqueued(plan: Plan, s: System, m: nat)
    requires |s.messages| == |plan| && m < |plan|
  {
    s.messages[m].next.Some? ==>
      && s.messages[m].next.value <= |plan[m]|
      && forall i :: 0 <= i < s.messages[m].next.value && plan[m][i] < |s.queues| ==> Handler(m, i) in s.queues[plan[m][i]].history
  }

  /** The worker of the queue is past the decrement for the entry. */
  ghost predicate IsDone(queue: Queue, e: Entry) {
    e in queue.handled || (queue.worker == Finishing && queue.batch != [] && queue.batch[0] == e)
  }

  ghost predicate HasReturned(queue: Queue, e: Entry) {
    IsDone(queue, e) || (queue.worker == Returned && queue.batch != [] && queue.batch[0] == e)
  }

  ghost predicate Recorded(plan: Plan, s: System, m: nat)
    requires |s.messages| == |plan| && m < |plan|
  {
    && (forall i: nat :: i in s.messages[m].done <==>
      i < |plan[m]| && plan[m][i] < |s.queues| && IsDone(s.queues[plan[m][i]], Handler(m, i)))
    && (forall i: nat :: i in s.messages[m].returned <==>
      i < |plan[m]| && plan[m][i] < |s.queues| && HasReturned(s.queues[plan[m][i]], Handler(m, i)))
  }

  /** The counter counts the handlers that have not decremented it. */
  ghost predicate Counted(plan: Plan, s: System, m: nat)
    requires |s.messages| == |plan| && m < |plan|
  {
    s.messages[m].next.Some? && plan[m] != [] ==> s.messages[m].remaining == |plan[m]| - |s.messages[m].done|
  }

  /** The worker of the queue is about to run the continuation of the message. */
  ghost predicate IsFinishing(s: System, q: nat, m: nat) {
    && q < |s.queues| && s.queues[q].worker == Finishing && s.queues[q].batch != []
    && s.queues[q].batch[0].Handler? && s.queues[q].batch[0].message == m
  }

  ghost predicate SomeFinishing(s: System, m: nat) {
    exists q: nat :: q < |s.queues| && IsFinishing(s, q, m)
  }

  /** The continuation has run, or one worker is about to run it, exactly if there is nothing left to wait for. */
  ghost predicate Continued(plan: Plan, s: System, m: nat)
    requires |s.messages| == |plan| && m < |plan|
  {
    var msg := s.messages[m];
    && msg.runs <= 1
    && (msg.next.None? ==> msg.runs == 0)
    && (plan[m] == [] ==> !SomeFinishing(s, m) && (msg.next.Some? ==> msg.runs == 1))
    && (msg.next.Some? && plan[m] != [] ==>
      if msg.remaining != 0 then msg.runs == 0 && !SomeFinishing(s, m)
      else msg.runs == 1 <==> !SomeFinishing(s, m))
    && (forall p: nat, q: nat :: p < q < |s.queues| && IsFinishing(s, p, m) ==> !IsFinishing(s, q, m))
  }

  ghost predicate Invariant(plan: Plan, s: System) {
    && |s.messages| == |plan|
    && (forall m :: 0 <= m < |plan| ==> |plan[m]| < COUNT_LIMIT)
    && (forall q :: 0 <= q < |s.queues| ==> Conserved(s.queues[q]) && Placed(plan, s, q))
    && (forall m :: 0 <= m < |plan| ==> AllEnqueued(plan, s, m) && Recorded(plan, s, m) && Counted(plan, s, m) && Continued(plan, s, m))
  }

  // ----- the invariant is kept -----

  /** An entry that a worker is at belongs to a dispatched handler, and was not handled before. */
  lemma HeadIsDispatched(plan: Plan, s: System, q: nat)
    requires Invariant(plan, s) && q < |s.queues| && s.queues[q].batch != [] && s.queues[q].batch[0].Handler?
    ensures IsDispatched(plan, s, q, s.queues[q].batch[0])
    ensures s.queues[q].batch[0] !in s.queues[q].handled
  {
    hide AllEnqueued, Recorded, Counted, Continued, WellDropped, DoneOf;
    var queue := s.queues[q];
    assert queue.history[|queue.past|] == queue.batch[0];
    if queue.batch[0] in queue.handled {
      var i := HandledIsPast(queue, queue.batch[0]);
    }
  }

  lemma {:induction false} DoneIsPast(past: seq<Fate>, e: Entry) returns (i: nat)
    requires e in DoneOf(past)
    ensures i < |past| && past[i] == Done(e)
    decreases |past|
  {
    var last := |past| - 1;
    if past[last] == Done(e) {
      i := last;
    } else {
      i := DoneIsPast(past[..last], e);
    }
  }

  lemma HandledIsPast(queue: Queue, e: Entry) returns (i: nat)
    requires Conserved(queue) && e in queue.handled
    ensures i < |queue.past| <= |queue.history| && queue.past[i] == Done(e) && queue.history[i] == e
  {
    hide DoneOf, WellDropped;
    i := DoneIsPast(queue.past, e);
  }

  /** Nothing that was dispatched or enqueued is taken back. */
  ghost predicate Grows(plan: Plan, s: System, t: System) {
    && |s.messages| == |t.messages| == |plan| && |s.queues| == |t.queues|
    && (forall m :: 0 <= m < |plan| && s.messages[m].next.Some? ==>
      t.messages[m].next.Some? && s.messages[m].next.value <= t.messages[m].next.value)
    && (forall q :: 0 <= q < |s.queues| ==> s.queues[q].history <= t.queues[q].history)
  }

  lemma StepGrows(plan: Plan, s: System, step: Step)
    requires |s.messages| == |plan| && Enabled(plan, s, step)
    ensures Grows(plan, s, Next(plan, s, step))
  {
  }

  lemma EnqueueConserves(q: Queue, e: Entry)
    requires Conserved(q)
    ensures Conserved(Enqueue(q, e))
  {
    hide WellDropped, DoneOf;
    assert EntriesOf(q.past) + q.batch + (q.shared + [e]) == q.history + [e];
  }

  lemma PopConserves(q: Queue)
    requires Conserved(q) && q.batch != [] && q.batch[0].Handler?
    ensures Conserved(Pop(q))
  {
    hide WellDropped, DoneOf, EntriesOf;
    OneMoreDone(q.past, q.batch[0]);
    var gone := EntriesOf(q.past);
    assert (gone + [q.batch[0]]) + q.batch[1..] == gone + q.batch;
    DoneIsWell(q.past, q.batch[0]);
  }

  lemma OneMoreDone(past: seq<Fate>, e: Entry)
    ensures EntriesOf(past + [Done(e)]) == EntriesOf(past) + [e] && DoneOf(past + [Done(e)]) == DoneOf(past) + [e]
  {
    var now := past + [Done(e)];
    assert now[..|now| - 1] == past;
  }

  lemma DoneIsWell(past: seq<Fate>, e: Entry)
    requires WellDropped(past) && e.Handler?
    ensures WellDropped(past + [Done(e)])
  {
    var now := past + [Done(e)];
    forall i | 0 <= i < |now| && now[i].Dropped?
      ensures DroppedBehindSentinel(now, i)
    {
      EarlierIsBehind(past, [Done(e)], i);
    }
  }

  lemma EarlierIsBehind(past: seq<Fate>, more: seq<Fate>, i: nat)
    requires DroppedBehindSentinel(past, i)
    ensures DroppedBehindSentinel(past + more, i)
  {
    var j :| 0 <= j <= i < |past| && past[j] == Dropped(Sentinel) && forall k :: j <= k <= i ==> past[k].Dropped?;
    assert (past + more)[j] == Dropped(Sentinel) && forall k :: j <= k <= i ==> (past + more)[k] == past[k];
  }

  lemma DropIsWell(past: seq<Fate>, es: seq<Entry>)
    requires WellDropped(past) && (es != [] ==> es[0].Sentinel?)
    ensures WellDropped(past + Drop(es))
  {
    var now := past + Drop(es);
    forall i | 0 <= i < |now| && now[i].Dropped?
      ensures DroppedBehindSentinel(now, i)
    {
      if i < |past| {
        EarlierIsBehind(past, Drop(es), i);
      } else {
        assert now[|past|] == Dropped(Sentinel) && forall k :: |past| <= k <= i ==> now[k].Dropped?;
      }
    }
  }

  lemma {:induction false} DropIsNotDone(past: seq<Fate>, es: seq<Entry>)
    ensures DoneOf(past + Drop(es)) == DoneOf(past)
    decreases |es|
  {
    var now := past + Drop(es);
    if es == [] {
      assert now == past;
    } else {
      var fewer := es[..|es| - 1];
      assert now[..|now| - 1] == past + Drop(fewer);
      DropIsNotDone(past, fewer);
    }
  }

  lemma StartConserves(q: Queue)
    requires Conserved(q) && q.worker in {NotStarted, Stopped}
    ensures Conserved(Started(q))
  {
    hide WellDropped, DoneOf;
    assert EntriesOf(q.past + Drop(q.batch)) == EntriesOf(q.past) + q.batch;
    assert EntriesOf(q.past) + q.batch + [] == EntriesOf(q.past) + q.batch;
    DropIsWell(q.past, q.batch);
    DropIsNotDone(q.past, q.batch);
  }

  lemma DetachConserves(q: Queue)
    requires Conserved(q) && q.worker == Waiting
    ensures Conserved(q.(worker := Draining, batch := q.shared, shared := []))
  {
    hide WellDropped, DoneOf;
    assert EntriesOf(q.past) + q.shared + [] == EntriesOf(q.past) + [] + q.shared;
  }

  /** What a step can do to a queue. */
  lemma QueueStep(plan: Plan, s: System, step: Step, q: nat)
    requires |s.messages| == |plan| && Enabled(plan, s, step) && q < |s.queues|
    ensures |Next(plan, s, step).queues| == |s.queues|
    ensures var was, now := s.queues[q], Next(plan, s, step).queues[q];
      || now == was
      || (exists e :: now == Enqueue(was, e))
      || (exists e :: now == Enqueue(was, e).(running := false))
      || (was.worker in {NotStarted, Stopped} && now == Started(was))
      || (was.worker == Waiting && now == was.(worker := Draining, batch := was.shared, shared := []))
      || (was.worker == Draining && was.batch == [] && now == was.(worker := Waiting))
      || (was.worker == Draining && was.batch != [] && was.batch[0].Sentinel? && now == was.(worker := Stopped))
      || (was.batch != [] && was.batch[0].Handler? && now in {was.(worker := Returned), was.(worker := Finishing), Pop(was)})
  {
  }

  lemma StepConserves(plan: Plan, s: System, step: Step, q: nat)
    requires |s.messages| == |plan| && Enabled(plan, s, step) && q < |s.queues| && Conserved(s.queues[q])
    ensures |Next(plan, s, step).queues| == |s.queues| && Conserved(Next(plan, s, step).queues[q])
  {
    QueueStep(plan, s, step, q);
    hide Next, Enabled, EntriesOf, DoneOf, WellDropped;
    var was, now := s.queues[q], Next(plan, s, step).queues[q];
    if e :| now == Enqueue(was, e) {
      EnqueueConserves(was, e);
    } else if e :| now == Enqueue(was, e).(running := false) {
      EnqueueConserves(was, e);
    } else if was.worker == Waiting && now == was.(worker := Draining, batch := was.shared, shared := []) {
      DetachConserves(was);
    } else if was.worker in {NotStarted, Stopped} && now == Started(was) {
      StartConserves(was);
    } else if was.batch != [] && was.batch[0].Handler? && now == Pop(was) {
      PopConserves(was);
    }
  }

  /** The history of a queue grows by the entry of a handler that is dispatched right then, or by the sentinel. */
  lemma HistoryStep(plan: Plan, s: System, step: Step, q: nat)
    requires |s.messages| == |plan| && Enabled(plan, s, step) && q < |s.queues|
    ensures |Next(plan, s, step).queues| == |s.queues|
    ensures var h, k := s.queues[q].history, Next(plan, s, step).queues[q].history;
      || k == h
      || k == h + [Sentinel]
      || (step.DispatchOne? && plan[step.m][s.messages[step.m].next.value] == q
        && k == h + [Handler(step.m, s.messages[step.m].next.value)])
  {
  }

  lemma NextStep(plan: Plan, s: System, step: Step)
    requires |s.messages| == |plan| && Enabled(plan, s, step) && step.DispatchOne?
    ensures |Next(plan, s, step).messages| == |plan| && step.m < |plan|
    ensures s.messages[step.m].next.Some? && s.messages[step.m].next.value < |plan[step.m]|
    ensures Next(plan, s, step).messages[step.m].next == Some(s.messages[step.m].next.value + 1)
  {
  }

  lemma StepPlaces(plan: Plan, s: System, step: Step, q: nat)
    requires |s.messages| == |plan| && Enabled(plan, s, step) && q < |s.queues| && Placed(plan, s, q)
    requires Grows(plan, s, Next(plan, s, step))
    ensures Placed(plan, Next(plan, s, step), q)
  {
    HistoryStep(plan, s, step, q);
    if step.DispatchOne? {
      NextStep(plan, s, step);
    }
    hide Enabled, Next;
    var t := Next(plan, s, step);
    var h, k := s.queues[q].history, t.queues[q].history;
    forall i | 0 <= i < |k| && k[i].Handler?
      ensures IsDispatched(plan, t, q, k[i])
    {
      if i < |h| {
        assert k[i] == h[i];
      }
    }
    forall i, j | 0 <= i < j < |k| && k[i].Handler?
      ensures k[i] != k[j]
    {
      assert k[i] == h[i];
      if j < |h| {
        assert k[j] == h[j];
      }
    }
  }

  /** What a dispatch leaves: the entry is in the history if its queue exists. */
  lemma DispatchedIsEnqueued(plan: Plan, s: System, step: Step)
    requires |s.messages| == |plan| && Enabled(plan, s, step) && step.DispatchOne?
    ensures |Next(plan, s, step).queues| == |s.queues| && step.m < |plan| && s.messages[step.m].next.Some?
    ensures var i := s.messages[step.m].next.value;
      i < |plan[step.m]| && (plan[step.m][i] < |s.queues| ==> Handler(step.m, i) in Next(plan, s, step).queues[plan[step.m][i]].history)
  {
    var i := s.messages[step.m].next.value;
    var q := plan[step.m][i];
    if q < |s.queues| {
      assert Next(plan, s, step).queues[q].history[|s.queues[q].history|] == Handler(step.m, i);
    }
  }

  lemma StepNexts(plan: Plan, s: System, step: Step, m: nat)
    requires |s.messages| == |plan| && Enabled(plan, s, step) && m < |plan|
    ensures |Next(plan, s, step).messages| == |plan|
    ensures var now := Next(plan, s, step).messages[m].next;
      || now == s.messages[m].next
      || (step == Begin(m) && now == Some(0))
      || (step == DispatchOne(m) && s.messages[m].next.Some? && now == Some(s.messages[m].next.value + 1))
  {
  }

  lemma StepEnqueues(plan: Plan, s: System, step: Step, m: nat)
    requires |s.messages| == |plan| && Enabled(plan, s, step) && m < |plan| && AllEnqueued(plan, s, m)
    requires Grows(plan, s, Next(plan, s, step))
    ensures AllEnqueued(plan, Next(plan, s, step), m)
  {
    StepNexts(plan, s, step, m);
    if step.DispatchOne? {
      DispatchedIsEnqueued(plan, s, step);
    }
    hide Enabled, Next;
    var t := Next(plan, s, step);
    if t.messages[m].next.Some? {
      forall i | 0 <= i < t.messages[m].next.value && i < |plan[m]| && plan[m][i] < |t.queues|
        ensures Handler(m, i) in t.queues[plan[m][i]].history
      {
        if s.messages[m].next.Some? && i < s.messages[m].next.value {
          assert Handler(m, i) in s.queues[plan[m][i]].history;
        }
      }
    }
  }

  /** The step in which a handler decrements the counter, and the one in which it returns. */
  ghost predicate Decrements(s: System, step: Step, q: nat, e: Entry) {
    step == Decrement(q) && q < |s.queues| && s.queues[q].batch != [] && s.queues[q].batch[0] == e
  }

  ghost predicate Returns(s: System, step: Step, q: nat, e: Entry) {
    step == HandlerReturns(q) && q < |s.queues| && s.queues[q].batch != [] && s.queues[q].batch[0] == e
  }

  lemma StepDoes(plan: Plan, s: System, step: Step, q: nat, e: Entry)
    requires |s.messages| == |plan| && Enabled(plan, s, step) && q < |s.queues| && e.Handler?
    ensures |Next(plan, s, step).queues| == |s.queues|
    ensures IsDone(Next(plan, s, step).queues[q], e) <==> IsDone(s.queues[q], e) || Decrements(s, step, q, e)
    ensures HasReturned(Next(plan, s, step).queues[q], e) <==> HasReturned(s.queues[q], e) || Returns(s, step, q, e)
  {
  }

  lemma StepMarks(plan: Plan, s: System, step: Step, m: nat, i: nat)
    requires |s.messages| == |plan| && Enabled(plan, s, step) && m < |plan|
    ensures |Next(plan, s, step).messages| == |plan|
    ensures i in Next(plan, s, step).messages[m].done <==>
      i in s.messages[m].done || (step.Decrement? && Decrements(s, step, step.q, Handler(m, i)))
    ensures i in Next(plan, s, step).messages[m].returned <==>
      i in s.messages[m].returned || (step.HandlerReturns? && Returns(s, step, step.q, Handler(m, i)))
  {
  }

  lemma StepRecords(plan: Plan, s: System, step: Step, m: nat)
    requires Invariant(plan, s) && Enabled(plan, s, step) && m < |plan|
    requires Grows(plan, s, Next(plan, s, step))
    ensures Recorded(plan, Next(plan, s, step), m)
  {
    hide Conserved, Placed, AllEnqueued, Counted, Continued, Enabled, Next, IsDone, HasReturned;
    var t := Next(plan, s, step);
    assert Recorded(plan, s, m);
    forall i: nat
      ensures i in t.messages[m].done <==> i < |plan[m]| && plan[m][i] < |t.queues| && IsDone(t.queues[plan[m][i]], Handler(m, i))
      ensures i in t.messages[m].returned <==> i < |plan[m]| && plan[m][i] < |t.queues| && HasReturned(t.queues[plan[m][i]], Handler(m, i))
    {
      StepMarks(plan, s, step, m, i);
      if step.Decrement? && Decrements(s, step, step.q, Handler(m, i)) {
        HeadIsDispatched(plan, s, step.q);
      }
      if step.HandlerReturns? && Returns(s, step, step.q, Handler(m, i)) {
        HeadIsDispatched(plan, s, step.q);
      }
      if i < |plan[m]| && plan[m][i] < |s.queues| {
        StepDoes(plan, s, step, plan[m][i], Handler(m, i));
      }
    }
  }

  lemma {:induction false} BelowBound(d: set<nat>, n: nat)
    requires forall i :: i in d ==> i < n
    ensures |d| <= n
  {
    if n == 0 {
      assert d == {};
    } else {
      BelowBound(d - {n - 1}, n - 1);
    }
  }

  /** A handler that is about to decrement has not done so yet, and the counter still has it. */
  lemma DecrementIsSafe(plan: Plan, s: System, q: nat)
    requires Invariant(plan, s) && Enabled(plan, s, Decrement(q))
    ensures var e := s.queues[q].batch[0];
      && e.message < |plan| && plan[e.message] != [] && s.messages[e.message].next.Some?
      && e.handler !in s.messages[e.message].done && 1 <= s.messages[e.message].remaining < COUNT_LIMIT
      && s.messages[e.message].remaining == |plan[e.message]| - |s.messages[e.message].done|
  {
    hide Conserved, Placed, AllEnqueued, Continued;
    HeadIsDispatched(plan, s, q);
    var e := s.queues[q].batch[0];
    var msg := s.messages[e.message];
    assert Recorded(plan, s, e.message) && Counted(plan, s, e.message);
    assert !IsDone(s.queues[q], e);
    BelowBound(msg.done + {e.handler}, |plan[e.message]|);
  }

  /** Before its dispatch a message has no handler that is done, and no worker is about to finish it. */
  lemma NothingBefore(plan: Plan, s: System, m: nat)
    requires Invariant(plan, s) && m < |plan| && s.messages[m].next.None?
    ensures s.messages[m].done == {} && !SomeFinishing(s, m)
  {
    hide AllEnqueued, Counted, Continued;
    assert Recorded(plan, s, m);
    forall i: nat | i in s.messages[m].done
      ensures false
    {
      var q := plan[m][i];
      DoneIsDispatched(plan, s, q, Handler(m, i));
    }
    if q: nat :| q < |s.queues| && IsFinishing(s, q, m) {
      HeadIsDispatched(plan, s, q);
    }
  }

  lemma DoneIsDispatched(plan: Plan, s: System, q: nat, e: Entry)
    requires Invariant(plan, s) && q < |s.queues| && e.Handler? && IsDone(s.queues[q], e)
    ensures IsDispatched(plan, s, q, e)
  {
    hide AllEnqueued, Recorded, Counted, Continued;
    var queue := s.queues[q];
    if e in queue.handled {
      var i := HandledIsPast(queue, e);
    } else {
      HeadIsDispatched(plan, s, q);
    }
  }

  /** How a message's counter and runs change. */
  lemma StepCounts(plan: Plan, s: System, step: Step, m: nat)
    requires |s.messages| == |plan| && Enabled(plan, s, step) && m < |plan|
    ensures |Next(plan, s, step).messages| == |plan|
    ensures var was, now := s.messages[m], Next(plan, s, step).messages[m];
      && (if step == Begin(m) then
            now == was.(next := Some(0), runs := now.runs, remaining := now.remaining)
            && (if plan[m] == [] then now.runs == was.runs + 1 else now.runs == was.runs && now.remaining == |plan[m]| % COUNT_LIMIT)
          else if step.Decrement? && s.queues[step.q].batch[0].message == m then
            now == was.(remaining := (was.remaining - 1) % COUNT_LIMIT, done := was.done + {s.queues[step.q].batch[0].handler})
          else if step.Continue? && s.queues[step.q].batch[0].message == m then
            now == was.(runs := was.runs + 1)
          else now == was.(next := now.next, returned := now.returned))
  {
  }

  lemma StepCounted(plan: Plan, s: System, step: Step, m: nat)
    requires Invariant(plan, s) && Enabled(plan, s, step) && m < |plan|
    ensures |Next(plan, s, step).messages| == |plan| && Counted(plan, Next(plan, s, step), m)
  {
    hide Conserved, Placed, AllEnqueued, Recorded, Continued;
    StepCounts(plan, s, step, m);
    StepNexts(plan, s, step, m);
    assert Counted(plan, s, m);
    hide Next;
    if step == Begin(m) {
      NothingBefore(plan, s, m);
    } else if step.Decrement? && s.queues[step.q].batch[0].message == m {
      DecrementIsSafe(plan, s, step.q);
    }
  }

  lemma StepFinishes(plan: Plan, s: System, step: Step, q: nat, m: nat)
    requires |s.messages| == |plan| && Enabled(plan, s, step) && q < |s.queues| && m < |plan|
    ensures |Next(plan, s, step).queues| == |s.queues|
    ensures IsFinishing(Next(plan, s, step), q, m) <==>
      || (IsFinishing(s, q, m) && step != Continue(q))
      || (step == Decrement(q) && s.queues[q].batch[0].message == m && (s.messages[m].remaining - 1) % COUNT_LIMIT == 0)
  {
  }

  /** Which workers are about to finish the message changes only for the worker that decrements or continues. */
  lemma StepFinishers(plan: Plan, s: System, step: Step, m: nat)
    requires |s.messages| == |plan| && Enabled(plan, s, step) && m < |plan|
    ensures |Next(plan, s, step).queues| == |s.queues|
    ensures forall q: nat :: q < |s.queues| ==>
      (IsFinishing(Next(plan, s, step), q, m) <==>
        || (IsFinishing(s, q, m) && step != Continue(q))
        || (step == Decrement(q) && s.queues[q].batch[0].message == m && (s.messages[m].remaining - 1) % COUNT_LIMIT == 0))
  {
    hide IsFinishing, Next, Enabled;
    forall q: nat | q < |s.queues| {
      StepFinishes(plan, s, step, q, m);
    }
    StepGrows(plan, s, step);
  }

  lemma StepContinues(plan: Plan, s: System, step: Step, m: nat)
    requires Invariant(plan, s) && Enabled(plan, s, step) && m < |plan|
    ensures |Next(plan, s, step).messages| == |plan| && Continued(plan, Next(plan, s, step), m)
  {
    hide Conserved, Placed, AllEnqueued, Recorded, Counted;
    StepCounts(plan, s, step, m);
    StepNexts(plan, s, step, m);
    StepFinishers(plan, s, step, m);
    assert Continued(plan, s, m);
    hide Next;
    var t := Next(plan, s, step);
    if step == Begin(m) {
      NothingBefore(plan, s, m);
      hide IsFinishing;
    } else if step.Decrement? && s.queues[step.q].batch[0].message == m {
      DecrementIsSafe(plan, s, step.q);
      assert !SomeFinishing(s, m);
      assert t.messages[m].remaining == 0 ==> IsFinishing(t, step.q, m);
    } else if step.Continue? && s.queues[step.q].batch[0].message == m {
      HeadIsDispatched(plan, s, step.q);
      assert IsFinishing(s, step.q, m);
    } else {
      hide Enabled;
      OthersFinish(s, t, step, m);
    }
  }

  lemma OthersFinish(s: System, t: System, step: Step, m: nat)
    requires |s.queues| == |t.queues|
    requires forall q: nat :: q < |s.queues| ==> (IsFinishing(t, q, m) <==> IsFinishing(s, q, m))
    ensures SomeFinishing(t, m) <==> SomeFinishing(s, m)
  {
  }

  lemma StepKeepsInvariant(plan: Plan, s: System, step: Step)
    requires Invariant(plan, s) && Enabled(plan, s, step)
    ensures Invariant(plan, Next(plan, s, step))
  {
    hide Conserved, Placed, AllEnqueued, Recorded, Counted, Continued, Enabled, Next, Grows;
    var t := Next(plan, s, step);
    StepGrows(plan, s, step);
    GrowsShape(plan, s, t);
    forall q | 0 <= q < |s.queues|
      ensures Conserved(t.queues[q]) && Placed(plan, t, q)
    {
      assert Conserved(s.queues[q]) && Placed(plan, s, q);
      StepConserves(plan, s, step, q);
      StepPlaces(plan, s, step, q);
    }
    forall m | 0 <= m < |plan|
      ensures AllEnqueued(plan, t, m) && Recorded(plan, t, m) && Counted(plan, t, m) && Continued(plan, t, m)
    {
      assert AllEnqueued(plan, s, m);
      StepEnqueues(plan, s, step, m);
      StepRecords(plan, s, step, m);
      StepCounted(plan, s, step, m);
      StepContinues(plan, s, step, m);
    }
  }

  lemma GrowsShape(plan: Plan, s: System, t: System)
    requires Grows(plan, s, t)
    ensures |s.messages| == |t.messages| == |plan| && |s.queues| == |t.queues|
  {
  }

  // ----- runs -----

  /** The state after the steps of a run, each enabled where it is taken. */
  ghost predicate IsRun(plan: Plan, s: System, steps: seq<Step>, t: System)
    requires |s.messages| == |plan|
    decreases |steps|
  {
    if steps == [] then t == s
    else Enabled(plan, s, steps[0]) && (StepGrows(plan, s, steps[0]); IsRun(plan, Next(plan, s, steps[0]), steps[1..], t))
  }

  /** The invoker lists have sizes that fit the counter. */
  predicate ValidPlan(plan: Plan) {
    forall m :: 0 <= m < |plan| ==> |plan[m]| < COUNT_LIMIT
  }

  lemma InitialIsInvariant(plan: Plan, s: System)
    requires ValidPlan(plan) && Initial(plan, s)
    ensures Invariant(plan, s)
  {
    forall m | 0 <= m < |plan|
      ensures Recorded(plan, s, m)
    {
      assert s.messages[m] == InitialMessage();
    }
  }

  lemma {:induction false} RunKeepsInvariant(plan: Plan, s: System, steps: seq<Step>, t: System)
    requires Invariant(plan, s) && IsRun(plan, s, steps, t)
    ensures Invariant(plan, t) && |t.queues| == |s.queues|
    decreases |steps|
  {
    hide Invariant, Enabled, Next;
    InvariantShape(plan, s);
    if steps == [] {
    } else {
      StepGrows(plan, s, steps[0]);
      StepKeepsInvariant(plan, s, steps[0]);
      RunKeepsInvariant(plan, Next(plan, s, steps[0]), steps[1..], t);
    }
  }

  lemma InvariantShape(plan: Plan, s: System)
    requires Invariant(plan, s)
    ensures |s.messages| == |plan|
  {
  }

  /** Every handler of the message has a queue, and its entry has been processed there. */
  ghost predicate AllProcessed(plan: Plan, s: System, m: nat)
    requires m < |plan|
  {
    forall h :: 0 <= h < |plan[m]| ==> plan[m][h] < |s.queues| && Handler(m, h) in s.queues[plan[m][h]].handled
  }

  lemma {:induction false} FullSet(d: set<nat>, n: nat)
    requires forall i :: i in d ==> i < n
    ensures |d| == n <==> forall i :: 0 <= i < n ==> i in d
  {
    if n > 0 {
      FullSet(d - {n - 1}, n - 1);
      BelowBound(d - {n - 1}, n - 1);
      assert n - 1 in d ==> |d| == |d - {n - 1}| + 1;
    } else {
      assert d == {};
    }
  }

  /** The continuation has run exactly if the message was dispatched and every handler has been processed. */
  lemma RanIffProcessed(plan: Plan, s: System, m: nat)
    requires Invariant(plan, s) && m < |plan|
    ensures s.messages[m].runs == if s.messages[m].next.Some? && AllProcessed(plan, s, m) then 1 else 0
  {
    hide Conserved, Placed, AllEnqueued;
    var msg := s.messages[m];
    assert Recorded(plan, s, m) && Counted(plan, s, m) && Continued(plan, s, m);
    if plan[m] == [] || msg.next.None? {
      return;
    }
    FullSet(msg.done, |plan[m]|);
    if AllProcessed(plan, s, m) {
      assert forall h: nat :: h < |plan[m]| ==> h in msg.done;
      NotFinishing(plan, s, m);
    } else if msg.runs == 1 {
      assert !SomeFinishing(s, m);
      forall h | 0 <= h < |plan[m]|
        ensures plan[m][h] < |s.queues| && Handler(m, h) in s.queues[plan[m][h]].handled
      {
        assert h in msg.done;
        assert !IsFinishing(s, plan[m][h], m);
      }
    }
  }

  /** A worker that is about to run a continuation is at an entry that is not yet processed. */
  lemma NotFinishing(plan: Plan, s: System, m: nat)
    requires Invariant(plan, s) && m < |plan| && AllProcessed(plan, s, m)
    ensures !SomeFinishing(s, m)
  {
    hide Conserved, Placed, AllEnqueued, Recorded, Counted, Continued;
    if q: nat :| q < |s.queues| && IsFinishing(s, q, m) {
      HeadIsDispatched(plan, s, q);
    }
  }

  /** In every state of every run: a message's continuation has run at most once; it has run if and only if the message was
      dispatched, all its handlers have queues and all their entries have been processed; and then all of them have returned. */
  lemma ContinuationRunsOnce(plan: Plan, s: System, steps: seq<Step>, t: System, m: nat)
    requires ValidPlan(plan) && Initial(plan, s) && IsRun(plan, s, steps, t) && m < |plan|
    ensures |t.messages| == |plan| && t.messages[m].runs <= 1
    ensures t.messages[m].runs == 1 <==> t.messages[m].next.Some? && AllProcessed(plan, t, m)
    ensures t.messages[m].runs == 1 ==> forall h :: 0 <= h < |plan[m]| ==> h in t.messages[m].returned
  {
    hide Conserved, Placed, AllEnqueued, Counted, Continued;
    InitialIsInvariant(plan, s);
    RunKeepsInvariant(plan, s, steps, t);
    RanIffProcessed(plan, t, m);
    assert Recorded(plan, t, m);
  }

  /** A message with a handler on an unknown queue is never continued. */
  lemma UnknownQueueNeverContinues(plan: Plan, s: System, steps: seq<Step>, t: System, m: nat, h: nat)
    requires ValidPlan(plan) && Initial(plan, s) && IsRun(plan, s, steps, t) && m < |plan| && h < |plan[m]| && plan[m][h] >= |s.queues|
    ensures |t.messages| == |plan| && t.messages[m].runs == 0
  {
    hide Invariant, IsRun;
    InitialIsInvariant(plan, s);
    RunKeepsInvariant(plan, s, steps, t);
    ContinuationRunsOnce(plan, s, steps, t, m);
  }

  /** The entries before the first sentinel. */
  function BeforeSentinel(es: seq<Entry>): seq<Entry> {
    if es == [] || es[0].Sentinel? then [] else [es[0]] + BeforeSentinel(es[1..])
  }

  lemma {:induction false} HandlersComeFirst(handled: seq<Entry>, rest: seq<Entry>)
    requires forall i :: 0 <= i < |handled| ==> handled[i].Handler?
    ensures BeforeSentinel(handled + rest) == handled + BeforeSentinel(rest)
  {
    if handled == [] {
      assert handled + rest == rest;
    } else {
      assert (handled + rest)[0] == handled[0] && (handled + rest)[1..] == handled[1..] + rest;
      HandlersComeFirst(handled[1..], rest);
    }
  }

  predicate NothingDropped(past: seq<Fate>) {
    forall i :: 0 <= i < |past| ==> past[i].Done?
  }

  lemma {:induction false} AllAreDone(past: seq<Fate>)
    ensures DoneOf(past) == EntriesOf(past) <==> NothingDropped(past)
    ensures |DoneOf(past)| <= |past|
    decreases |past|
  {
    if past == [] {
    } else {
      var last := |past| - 1;
      AllAreDone(past[..last]);
      assert EntriesOf(past) == EntriesOf(past[..last]) + [past[last].entry];
      assert forall i :: 0 <= i < last ==> past[..last][i] == past[i];
      if past[last].Done? && DoneOf(past) == EntriesOf(past) {
        assert DoneOf(past)[..last] == DoneOf(past[..last]) && EntriesOf(past)[..last] == EntriesOf(past[..last]);
      }
    }
  }

  /** In every state of every run, with any starts and stops: what is gone from a queue, then its worker's batch, then the shared
      list, is everything ever enqueued in order; what was handled is what is gone and not dropped, in order; what is dropped is a
      sentinel or what its batch had behind it; and nothing is missing if and only if nothing was dropped. */
  lemma QueueKeepsOrder(plan: Plan, s: System, steps: seq<Step>, t: System, q: nat)
    requires ValidPlan(plan) && Initial(plan, s) && IsRun(plan, s, steps, t) && q < |s.queues|
    ensures |t.queues| == |s.queues|
    ensures var queue := t.queues[q];
      && EntriesOf(queue.past) + queue.batch + queue.shared == queue.history
      && queue.handled == DoneOf(queue.past) && WellDropped(queue.past)
      && (queue.handled + queue.batch + queue.shared == queue.history <==> NothingDropped(queue.past))
  {
    hide Placed, AllEnqueued, Recorded, Counted, Continued, IsRun, DoneOf, WellDropped;
    InitialIsInvariant(plan, s);
    RunKeepsInvariant(plan, s, steps, t);
    var queue := t.queues[q];
    assert Conserved(queue);
    AllAreDone(queue.past);
    var gone, rest := EntriesOf(queue.past), queue.batch + queue.shared;
    assert gone + rest == queue.history && queue.handled + queue.batch + queue.shared == queue.handled + rest;
    if queue.handled + rest == gone + rest {
      assert |queue.handled| == |gone|;
      assert (queue.handled + rest)[..|gone|] == queue.handled && (gone + rest)[..|gone|] == gone;
    }
  }

  function Starts(steps: seq<Step>, q: nat): nat {
    if steps == [] then 0 else (if steps[0] == Start(q) then 1 else 0) + Starts(steps[1..], q)
  }

  /** What can become of a queue that has dropped nothing. */
  lemma StepDropsNothing(plan: Plan, s: System, step: Step, q: nat)
    requires |s.messages| == |plan| && Enabled(plan, s, step) && q < |s.queues| && Conserved(s.queues[q])
    requires NothingDropped(s.queues[q].past) && (step == Start(q) ==> s.queues[q].worker == NotStarted)
    ensures |Next(plan, s, step).queues| == |s.queues| && NothingDropped(Next(plan, s, step).queues[q].past)
    ensures s.queues[q].worker == NotStarted && step != Start(q) ==> Next(plan, s, step).queues[q].worker == NotStarted
  {
    hide EntriesOf, DoneOf, WellDropped;
  }

  lemma {:induction false} RunDropsNothing(plan: Plan, s: System, steps: seq<Step>, t: System, q: nat)
    requires Invariant(plan, s) && IsRun(plan, s, steps, t) && q < |s.queues| && NothingDropped(s.queues[q].past)
    requires Starts(steps, q) <= if s.queues[q].worker == NotStarted then 1 else 0
    ensures |t.queues| == |s.queues| && NothingDropped(t.queues[q].past)
    decreases |steps|
  {
    hide Invariant, Enabled, Next, NothingDropped, Conserved;
    InvariantShape(plan, s);
    if steps == [] {
    } else {
      ConservedAt(plan, s, q);
      StepGrows(plan, s, steps[0]);
      StepKeepsInvariant(plan, s, steps[0]);
      StepDropsNothing(plan, s, steps[0], q);
      RunDropsNothing(plan, Next(plan, s, steps[0]), steps[1..], t, q);
    }
  }

  lemma ConservedAt(plan: Plan, s: System, q: nat)
    requires Invariant(plan, s) && q < |s.queues|
    ensures Conserved(s.queues[q])
  {
  }

  /** In every state of every run in which a queue is started once at most: what its worker has handled, then its batch, then the
      shared list, is everything ever enqueued in order; what was handled comes before the first sentinel, and is all of that
      once the worker has stopped. */
  lemma QueueIsFifo(plan: Plan, s: System, steps: seq<Step>, t: System, q: nat)
    requires ValidPlan(plan) && Initial(plan, s) && IsRun(plan, s, steps, t) && q < |s.queues| && Starts(steps, q) <= 1
    ensures |t.queues| == |s.queues|
    ensures t.queues[q].handled + t.queues[q].batch + t.queues[q].shared == t.queues[q].history
    ensures t.queues[q].handled <= BeforeSentinel(t.queues[q].history)
    ensures t.queues[q].worker == Stopped ==> t.queues[q].handled == BeforeSentinel(t.queues[q].history)
  {
    hide Placed, AllEnqueued, Recorded, Counted, Continued, IsRun, DoneOf, EntriesOf;
    InitialIsInvariant(plan, s);
    RunKeepsInvariant(plan, s, steps, t);
    QueueKeepsOrder(plan, s, steps, t, q);
    RunDropsNothing(plan, s, steps, t, q);
    var queue := t.queues[q];
    assert Conserved(queue);
    AllAreDone(queue.past);
    var rest := queue.batch + queue.shared;
    assert queue.history == queue.handled + rest;
    forall i | 0 <= i < |queue.handled|
      ensures queue.handled[i].Handler?
    {
      var j := DoneIsPast(queue.past, queue.handled[i]);
    }
    HandlersComeFirst(queue.handled, rest);
    if queue.worker == Stopped {
      assert rest[0] == queue.batch[0];
    }
  }

  /** A message with a handler whose entry was dropped is never continued. */
  lemma DroppedNeverContinues(plan: Plan, s: System, steps: seq<Step>, t: System, q: nat, m: nat, h: nat)
    requires ValidPlan(plan) && Initial(plan, s) && IsRun(plan, s, steps, t) && q < |s.queues|
    requires q < |t.queues| && Dropped(Handler(m, h)) in t.queues[q].past
    ensures m < |plan| == |t.messages| && t.messages[m].runs == 0
  {
    hide AllEnqueued, Recorded, Counted, Continued, IsRun, DoneOf, WellDropped;
    InitialIsInvariant(plan, s);
    RunKeepsInvariant(plan, s, steps, t);
    var queue, e := t.queues[q], Handler(m, h);
    assert Conserved(queue) && Placed(plan, t, q);
    var i :| 0 <= i < |queue.past| && queue.past[i] == Dropped(e);
    assert queue.history[i] == e;
    if e in queue.handled {
      var j := HandledIsPast(queue, e);
    }
    assert !AllProcessed(plan, t, m);
    ContinuationRunsOnce(plan, s, steps, t, m);
  }

  // ----- a queue that is started again -----

  lemma StepInFront(plan: Plan, s: System, step: Step, rest: seq<Step>, t: System)
    requires |s.messages| == |plan| && Enabled(plan, s, step) && |Next(plan, s, step).messages| == |plan|
    requires IsRun(plan, Next(plan, s, step), rest, t)
    ensures IsRun(plan, s, [step] + rest, t)
  {
    hide Next, Enabled;
    assert ([step] + rest)[1..] == rest;
  }

  /** One message with one handler on one queue. */
  const ONE_HANDLER: Plan := [[0]]

  const LATE: Entry := Handler(0, 0)

  function OneQueue(next: Option<nat>, queue: Queue): System {
    System([Message(next, if next.None? then 0 else 1, 0, {}, {})], [queue])
  }

  /** The queue is started and stopped, the message is dispatched before the worker has seen the sentinel, and when the worker has
      ended the queue is started again. */
  function Restart(i: nat): System
    requires i <= 7
  {
    var both := [Sentinel, LATE];
    if i == 0 then OneQueue(None, InitialQueue())
    else if i == 1 then OneQueue(None, Queue(Waiting, true, [], [], [], [], []))
    else if i == 2 then OneQueue(None, Queue(Waiting, false, [Sentinel], [], [], [], [Sentinel]))
    else if i == 3 then OneQueue(Some(0), Queue(Waiting, false, [Sentinel], [], [], [], [Sentinel]))
    else if i == 4 then OneQueue(Some(1), Queue(Waiting, false, both, [], [], [], both))
    else if i == 5 then OneQueue(Some(1), Queue(Draining, false, [], both, [], [], both))
    else if i == 6 then OneQueue(Some(1), Queue(Stopped, false, [], both, [], [], both))
    else OneQueue(Some(1), Queue(Waiting, true, [], [], [], [Dropped(Sentinel), Dropped(LATE)], both))
  }

  function RestartStep(i: nat): Step
    requires i < 7
  {
    [Start(0), Stop(0), Begin(0), DispatchOne(0), Detach(0), SentinelSeen(0), Start(0)][i]
  }

  function RestartSteps(i: nat): seq<Step>
    requires i <= 7
    decreases 7 - i
  {
    if i == 7 then [] else [RestartStep(i)] + RestartSteps(i + 1)
  }

  lemma RestartBegins(i: nat)
    requires i < 4
    ensures Enabled(ONE_HANDLER, Restart(i), RestartStep(i))
    ensures Next(ONE_HANDLER, Restart(i), RestartStep(i)) == Restart(i + 1)
  {
    assert [] + Drop([]) == [];
    assert [] + [Sentinel] == [Sentinel] && [Sentinel] + [LATE] == [Sentinel, LATE];
  }

  lemma RestartEnds(i: nat)
    requires 4 <= i < 7
    ensures Enabled(ONE_HANDLER, Restart(i), RestartStep(i))
    ensures Next(ONE_HANDLER, Restart(i), RestartStep(i)) == Restart(i + 1)
  {
    assert [] + Drop([Sentinel, LATE]) == [Dropped(Sentinel), Dropped(LATE)];
  }

  lemma {:induction false} RestartRuns(i: nat)
    requires i <= 7
    ensures IsRun(ONE_HANDLER, Restart(i), RestartSteps(i), Restart(7))
    decreases 7 - i
  {
    hide Restart, RestartStep, Enabled, Next;
    RestartShape(i);
    if i == 7 {
    } else {
      RestartShape(i + 1);
      if i < 4 {
        RestartBegins(i);
      } else {
        RestartEnds(i);
      }
      RestartRuns(i + 1);
      StepInFront(ONE_HANDLER, Restart(i), RestartStep(i), RestartSteps(i + 1), Restart(7));
    }
  }

  lemma RestartShape(i: nat)
    requires i <= 7
    ensures |Restart(i).messages| == |ONE_HANDLER| && |Restart(i).queues| == 1
  {
  }

  /** When the queue is started again the handler's entry is dropped, and its message is never continued. */
  lemma RestartDropsHandler()
    ensures ValidPlan(ONE_HANDLER) && Initial(ONE_HANDLER, Restart(0))
    ensures IsRun(ONE_HANDLER, Restart(0), RestartSteps(0), Restart(7))
    ensures Restart(7).queues[0].worker == Waiting && LATE in Restart(7).queues[0].history
    ensures Dropped(LATE) in Restart(7).queues[0].past && Restart(7).queues[0].handled == []
  {
    RestartRuns(0);
    assert Restart(7).queues[0].past[1] == Dropped(LATE) && Restart(7).queues[0].history[1] == LATE;
  }

  // ----- one dispatcher alone -----

  /** The entries that queue `q` gets of the message's invokers from place `i` on. */
  function Sent(plan: Plan, m: nat, q: nat, i: nat): seq<Entry>
    requires m < |plan| && i <= |plan[m]|
    decreases |plan[m]| - i
  {
    if i == |plan[m]| then [] else SentAt(plan, m, q, i) + Sent(plan, m, q, i + 1)
  }

  function WithEntries(q: Queue, es: seq<Entry>): Queue {
    q.(shared := q.shared + es, history := q.history + es)
  }

  function SentAt(plan: Plan, m: nat, q: nat, i: nat): seq<Entry>
    requires m < |plan| && i < |plan[m]|
  {
    if plan[m][i] == q then [Handler(m, i)] else []
  }

  lemma DispatchOneSends(plan: Plan, s: System, m: nat, i: nat)
    requires |s.messages| == |plan| && m < |plan| && i < |plan[m]| && s.messages[m].next == Some(i)
    ensures Enabled(plan, s, DispatchOne(m))
    ensures var u := Next(plan, s, DispatchOne(m));
      && |u.messages| == |plan| && |u.queues| == |s.queues| && u.messages[m].next == Some(i + 1)
      && forall q :: 0 <= q < |s.queues| ==> u.queues[q] == WithEntries(s.queues[q], SentAt(plan, m, q, i))
  {
    var u := Next(plan, s, DispatchOne(m));
    forall q | 0 <= q < |s.queues|
      ensures u.queues[q] == WithEntries(s.queues[q], SentAt(plan, m, q, i))
    {
      assert s.queues[q].shared + [] == s.queues[q].shared && s.queues[q].history + [] == s.queues[q].history;
    }
  }

  lemma EntriesJoin(q: Queue, a: seq<Entry>, b: seq<Entry>)
    ensures WithEntries(WithEntries(q, a), b) == WithEntries(q, a + b)
    ensures WithEntries(q, []) == q
  {
    assert (q.shared + a) + b == q.shared + (a + b) && (q.history + a) + b == q.history + (a + b);
    assert q.shared + [] == q.shared && q.history + [] == q.history;
  }

  /** The loop of `cb_message_dispatcher_impl_dispatch_all` without interruptions, as steps: it runs to the end of the invokers,
      and every queue gets those of its name in order. */
  lemma {:induction false} DispatchAlone(plan: Plan, s: System, m: nat, i: nat) returns (steps: seq<Step>, t: System)
    requires |s.messages| == |plan| && m < |plan| && i <= |plan[m]| && s.messages[m].next == Some(i)
    ensures IsRun(plan, s, steps, t) && |t.queues| == |s.queues| && |t.messages| == |plan|
    ensures forall k :: 0 <= k < |steps| ==> steps[k] == DispatchOne(m)
    ensures t.messages[m].next == Some(|plan[m]|)
    ensures forall q :: 0 <= q < |s.queues| ==> t.queues[q] == WithEntries(s.queues[q], Sent(plan, m, q, i))
    decreases |plan[m]| - i
  {
    hide WithEntries, Enabled, Next;
    if i == |plan[m]| {
      forall q | 0 <= q < |s.queues| {
        EntriesJoin(s.queues[q], [], []);
      }
      return [], s;
    }
    DispatchOneSends(plan, s, m, i);
    var u := Next(plan, s, DispatchOne(m));
    steps, t := DispatchAlone(plan, u, m, i + 1);
    assert ([DispatchOne(m)] + steps)[1..] == steps;
    steps := [DispatchOne(m)] + steps;
    forall q | 0 <= q < |s.queues|
      ensures t.queues[q] == WithEntries(s.queues[q], Sent(plan, m, q, i))
    {
      EntriesJoin(s.queues[q], SentAt(plan, m, q, i), Sent(plan, m, q, i + 1));
    }
  }
}
