/** The generic FIFO `Queue<T>` of src/utils/queue.ts, as an immutable value. */
module Queue {
  import opened Wrappers

  datatype Queue<T> = Queue(items: seq<T>)

  /** Result of `pop` / `peek`: the returned element or the thrown error,
      together with the queue afterwards. */
  datatype Taken<T> = Taken(result: Result<T>, queue: Queue<T>)

  const EmptyMessage := "Queue is empty"

  function New<T>(): (q: Queue<T>)
    ensures Empty(q)
  {
    Queue([])
  }

  /** `empty()`: true exactly when the queue holds nothing. */
  predicate Empty<T>(q: Queue<T>) {
    |q.items| == 0
  }

  function Push<T>(q: Queue<T>, x: T): (r: Queue<T>)
    ensures !Empty(r)
    ensures |r.items| == |q.items| + 1
    ensures r.items[|q.items|] == x
    ensures r.items[..|q.items|] == q.items
  {
    Queue(q.items + [x])
  }

  function Pop<T>(q: Queue<T>): (r: Taken<T>)
    ensures Empty(q) ==> r == Taken(Thrown(EmptyMessage), q)
    ensures !Empty(q) ==> r.result == Ok(q.items[0]) && [q.items[0]] + r.queue.items == q.items
  {
    if Empty(q) then Taken(Thrown(EmptyMessage), q)
    else Taken(Ok(q.items[0]), Queue(q.items[1..]))
  }

  function Peek<T>(q: Queue<T>): (r: Taken<T>)
    ensures r.queue == q
    ensures Empty(q) <==> r.result.Thrown?
    ensures r.result.Thrown? ==> r.result.message == EmptyMessage
    ensures r.result.Ok? ==> r.result.value == q.items[0]
  {
    if Empty(q) then Taken(Thrown(EmptyMessage), q) else Taken(Ok(q.items[0]), q)
  }

  /** A client's interaction with one queue. */
  datatype Op<T> = PushOp(x: T) | PopOp | PeekOp

  /** One operation: the queue afterwards and the value a successful
      `pop` returned, if any. */
  function Step<T>(q: Queue<T>, op: Op<T>): (Queue<T>, seq<T>) {
    match op
    case PushOp(x) => (Push(q, x), [])
    case PopOp =>
      var t := Pop(q);
      (t.queue, if t.result.Ok? then [t.result.value] else [])
    case PeekOp => (Peek(q).queue, [])
  }

  /** Applies `ops` in order; returns the final queue and every value a
      successful `pop` returned, oldest first. */
  function Run<T>(q: Queue<T>, ops: seq<Op<T>>): (Queue<T>, seq<T>)
    decreases |ops|
  {
    if |ops| == 0 then (q, [])
    else
      var s := Step(q, ops[0]);
      var r := Run(s.0, ops[1..]);
      (r.0, s.1 + r.1)
  }

  /** Every value pushed by `ops`, in order. */
  function Pushed<T>(ops: seq<Op<T>>): seq<T> {
    if |ops| == 0 then []
    else PushedBy(ops[0]) + Pushed(ops[1..])
  }

  /** Values pushed by one operation. */
  function PushedBy<T>(op: Op<T>): seq<T> {
    if op.PushOp? then [op.x] else []
  }

  /** One step keeps "returned values, then queue" equal to "queue, then
      pushed values". */
  lemma StepIsFifo<T>(q: Queue<T>, op: Op<T>)
    ensures Step(q, op).1 + Step(q, op).0.items == q.items + PushedBy(op)
  {
  }

  /** FIFO: whatever the interleaving of pushes, pops and peeks, the values
      popped followed by those still queued are exactly the original content
      followed by the pushed values, in order. */
  lemma {:induction false} RunIsFifo<T>(q: Queue<T>, ops: seq<Op<T>>)
    ensures Run(q, ops).1 + Run(q, ops).0.items == q.items + Pushed(ops)
    decreases |ops|
  {
    if |ops| > 0 {
      var st := Step(q, ops[0]);
      var r := Run(st.0, ops[1..]);
      calc {
        Run(q, ops).1 + Run(q, ops).0.items;
        (st.1 + r.1) + r.0.items;
        st.1 + (r.1 + r.0.items);
        { RunIsFifo(st.0, ops[1..]); }
        st.1 + (st.0.items + Pushed(ops[1..]));
        (st.1 + st.0.items) + Pushed(ops[1..]);
        { StepIsFifo(q, ops[0]); }
        (q.items + PushedBy(ops[0])) + Pushed(ops[1..]);
        q.items + (PushedBy(ops[0]) + Pushed(ops[1..]));
        q.items + Pushed(ops);
      }
    }
  }

  /** Corollary: starting empty, the popped values are a prefix of the
      pushed values. */
  lemma PopsArePrefixOfPushes<T>(ops: seq<Op<T>>)
    ensures var out := Run(New(), ops).1;
      |out| <= |Pushed(ops)| && out == Pushed(ops)[..|out|]
  {
    RunIsFifo(New(), ops);
    var (final, out) := Run(New(), ops);
    assert out + final.items == Pushed(ops);
    assert (out + final.items)[..|out|] == out;
  }
}
