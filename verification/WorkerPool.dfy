/**
The bounded worker pool as a state machine: workers take indexed inputs from a
shared iterator, send their results through a channel, and a receiver puts each
result in the slot of its index.  A step is one atomic action of one thread.
*/
module WorkerPool {
  import opened Outcomes

  const MAX_WORKERS := 8

  datatype PoolError = NoInputs | NoWorkers | TooManyWorkers

  /** The number of threads started. */
  function WorkerLimit(requested: nat, inputCount: nat): (r: Result<nat, PoolError>)
    ensures r.Ok? <==> inputCount > 0 && 0 < requested <= 8
    ensures r == Err(NoInputs) <==> inputCount == 0
    ensures r == Err(NoWorkers) <==> inputCount > 0 && requested == 0
    ensures r.Ok? ==> r.value <= requested && r.value <= inputCount && (r.value == requested || r.value == inputCount)
  {
    if inputCount == 0 then Err(NoInputs)
    else if requested == 0 then Err(NoWorkers)
    else if requested > MAX_WORKERS then Err(TooManyWorkers)
    else Ok(if requested < inputCount then requested else inputCount)
  }

  /** A worker is about to ask for an input, working on one, or has left its loop. */
  datatype Worker = Ready | Busy(index: nat) | Gone

  datatype Delivery<R> = Delivery(index: nat, result: R)

  /** The shared iterator's position, the threads, the channel, and what the receiver has taken from it. */
  datatype Pool<R> = Pool(next: nat, workers: seq<Worker>, channel: seq<Delivery<R>>, received: seq<Delivery<R>>)

  datatype Step = Take(w: nat) | Send(w: nat) | Leave(w: nat) | Receive

  /** The batch: its inputs and what a worker computes from one. */
  datatype Batch<!I, !R> = Batch(inputs: seq<I>, process: (nat, I) -> R) {
    function ResultAt(i: nat): Delivery<R>
      requires i < |inputs|
    {
      Delivery(i, process(i, inputs[i]))
    }
  }

  ghost predicate Enabled<I, R>(b: Batch<I, R>, p: Pool<R>, step: Step) {
    match step
    case Take(w) => w < |p.workers| && p.workers[w] == Ready && p.next < |b.inputs|
    case Leave(w) => w < |p.workers| && p.workers[w] == Ready && p.next >= |b.inputs|
    case Send(w) => w < |p.workers| && p.workers[w].Busy? && p.workers[w].index < |b.inputs|
    case Receive => p.channel != []
  }

  ghost function After<I, R>(b: Batch<I, R>, p: Pool<R>, step: Step): Pool<R>
    requires Enabled(b, p, step)
  {
    match step
    case Take(w) => p.(next := p.next + 1, workers := p.workers[w := Busy(p.next)])
    case Leave(w) => p.(workers := p.workers[w := Gone])
    case Send(w) => p.(workers := p.workers[w := Ready], channel := p.channel + [b.ResultAt(p.workers[w].index)])
    case Receive => p.(channel := p.channel[1..], received := p.received + [p.channel[0]])
  }

  /** Threads as they are spawned. */
  ghost function Spawned(threads: nat): seq<Worker> {
    seq(threads, _ => Ready)
  }

  ghost function Start<R>(threads: nat): Pool<R> {
    Pool(0, Spawned(threads), [], [])
  }

  /** The steps can be taken one after the other, whatever the interleaving. */
  ghost predicate IsRun<I, R>(b: Batch<I, R>, threads: nat, steps: seq<Step>)
    decreases |steps|, 0
  {
    steps == [] ||
    (IsRun(b, threads, steps[..|steps| - 1])
     && Enabled(b, Reached(b, threads, steps[..|steps| - 1]), steps[|steps| - 1]))
  }

  ghost function Reached<I, R>(b: Batch<I, R>, threads: nat, steps: seq<Step>): Pool<R>
    requires IsRun(b, threads, steps)
    decreases |steps|, 1
  {
    if steps == [] then Start(threads)
    else After(b, Reached(b, threads, steps[..|steps| - 1]), steps[|steps| - 1])
  }

  // ---------------------------------------------------------------------
  // Every input is in exactly one place

  /** How many workers are busy with input `i`. */
  ghost function BusyWith(workers: seq<Worker>, i: nat): nat {
    if workers == [] then 0
    else BusyWith(workers[..|workers| - 1], i) + (if workers[|workers| - 1] == Busy(i) then 1 else 0)
  }

  /** How many deliveries carry index `i`. */
  ghost function Carrying<R>(ds: seq<Delivery<R>>, i: nat): nat {
    if ds == [] then 0
    else Carrying(ds[..|ds| - 1], i) + (if ds[|ds| - 1].index == i then 1 else 0)
  }

  /** In how many places input `i` is: pending, in flight, in the channel, received. */
  ghost function Places<I, R>(b: Batch<I, R>, p: Pool<R>, i: nat): nat {
    (if p.next <= i < |b.inputs| then 1 else 0)
    + BusyWith(p.workers, i) + Carrying(p.channel, i) + Carrying(p.received, i)
  }

  ghost predicate Genuine<I, R>(b: Batch<I, R>, ds: seq<Delivery<R>>) {
    forall d :: d in ds ==> d.index < |b.inputs| && d == b.ResultAt(d.index)
  }

  /** Every input is in exactly one place, no other index is anywhere, and every result is the right one. */
  ghost predicate Partitioned<I, R>(b: Batch<I, R>, p: Pool<R>) {
    && p.next <= |b.inputs|
    && (forall i: nat :: Places(b, p, i) == if i < |b.inputs| then 1 else 0)
    && Genuine(b, p.channel) && Genuine(b, p.received)
  }

  lemma {:induction false} BusyUpdate(workers: seq<Worker>, w: nat, now: Worker, i: nat)
    requires w < |workers|
    ensures BusyWith(workers[w := now], i) + (if workers[w] == Busy(i) then 1 else 0)
         == BusyWith(workers, i) + (if now == Busy(i) then 1 else 0)
  {
    var n := |workers| - 1;
    if w == n {
      assert workers[w := now][..n] == workers[..n];
    } else {
      assert workers[w := now][..n] == workers[..n][w := now];
      BusyUpdate(workers[..n], w, now, i);
    }
  }

  lemma CarryingPush<R>(a: seq<Delivery<R>>, d: Delivery<R>, i: nat)
    ensures Carrying(a + [d], i) == Carrying(a, i) + (if d.index == i then 1 else 0)
  {
    assert (a + [d])[..|a|] == a;
  }

  lemma {:induction false} CarryingPop<R>(c: seq<Delivery<R>>, i: nat)
    requires c != []
    ensures Carrying(c, i) == (if c[0].index == i then 1 else 0) + Carrying(c[1..], i)
  {
    var n := |c| - 1;
    if n > 0 {
      assert c[1..][..n - 1] == c[..n][1..];
      CarryingPop(c[..n], i);
    }
  }

  lemma StartPartitioned<I, R>(b: Batch<I, R>, threads: nat)
    ensures Partitioned(b, Start(threads))
  {
    forall i: nat
      ensures BusyWith(Spawned(threads), i) == 0
    {
      NobodyBusy(threads, i);
    }
  }

  lemma {:induction false} NobodyBusy(threads: nat, i: nat)
    ensures BusyWith(Spawned(threads), i) == 0
  {
    if threads > 0 {
      assert Spawned(threads)[..threads - 1] == Spawned(threads - 1);
      NobodyBusy(threads - 1, i);
    }
  }

  lemma StepKeepsPlaces<I, R>(b: Batch<I, R>, p: Pool<R>, step: Step, i: nat)
    requires Enabled(b, p, step)
    ensures Places(b, After(b, p, step), i) == Places(b, p, i)
  {
    match step
    case Take(w) => BusyUpdate(p.workers, w, Busy(p.next), i);
    case Leave(w) => BusyUpdate(p.workers, w, Gone, i);
    case Send(w) =>
      BusyUpdate(p.workers, w, Ready, i);
      CarryingPush(p.channel, b.ResultAt(p.workers[w].index), i);
    case Receive =>
      CarryingPop(p.channel, i);
      CarryingPush(p.received, p.channel[0], i);
  }

  /** Every step keeps the partition. */
  lemma StepKeepsPartition<I, R>(b: Batch<I, R>, p: Pool<R>, step: Step)
    requires Partitioned(b, p) && Enabled(b, p, step)
    ensures Partitioned(b, After(b, p, step))
  {
    forall i: nat
      ensures Places(b, After(b, p, step), i) == if i < |b.inputs| then 1 else 0
    {
      StepKeepsPlaces(b, p, step, i);
    }
  }

  /** So does every run. */
  lemma {:induction false} RunKeepsPartition<I, R>(b: Batch<I, R>, threads: nat, steps: seq<Step>)
    requires IsRun(b, threads, steps)
    ensures Partitioned(b, Reached(b, threads, steps))
    ensures |Reached(b, threads, steps).workers| == threads
  {
    if steps == [] {
      StartPartitioned(b, threads);
    } else {
      RunKeepsPartition(b, threads, steps[..|steps| - 1]);
      StepKeepsPartition(b, Reached(b, threads, steps[..|steps| - 1]), steps[|steps| - 1]);
    }
  }

  // ---------------------------------------------------------------------
  // Slots

  /** The receiver's slots after putting each delivery at its index. */
  ghost function Slots<R>(n: nat, received: seq<Delivery<R>>): (slots: seq<Option<R>>)
    ensures |slots| == n
  {
    if received == [] then seq(n, _ => None)
    else
      var last := received[|received| - 1];
      var before := Slots(n, received[..|received| - 1]);
      if last.index < n then before[last.index := Some(last.result)] else before
  }

  lemma {:induction false} SlotFilled<R>(n: nat, received: seq<Delivery<R>>, i: nat)
    requires i < n
    ensures Slots(n, received)[i].Some? <==> Carrying(received, i) > 0
    ensures Slots(n, received)[i].Some? ==> Delivery(i, Slots(n, received)[i].value) in received
  {
    if received != [] {
      SlotFilled(n, received[..|received| - 1], i);
    }
  }

  lemma {:induction false} BusyAt(workers: seq<Worker>, w: nat, i: nat)
    requires w < |workers| && workers[w] == Busy(i)
    ensures BusyWith(workers, i) >= 1
  {
    if w < |workers| - 1 {
      BusyAt(workers[..|workers| - 1], w, i);
    }
  }

  lemma {:induction false} BusyTwice(workers: seq<Worker>, v: nat, w: nat, i: nat)
    requires v < w < |workers| && workers[v] == workers[w] == Busy(i)
    ensures BusyWith(workers, i) >= 2
  {
    var n := |workers| - 1;
    if w < n {
      BusyTwice(workers[..n], v, w, i);
    } else {
      BusyAt(workers[..n], v, i);
    }
  }

  lemma {:induction false} CarryingAt<R>(ds: seq<Delivery<R>>, d: Delivery<R>)
    requires d in ds
    ensures Carrying(ds, d.index) >= 1
  {
    var n := |ds| - 1;
    if d != ds[n] {
      assert ds == ds[..n] + [ds[n]];
      CarryingAt(ds[..n], d);
    }
  }

  /** When a delivery arrives its slot exists and is still empty: no slot is written twice. */
  lemma SlotIsEmptyOnReceive<I, R>(b: Batch<I, R>, threads: nat, steps: seq<Step>)
    requires IsRun(b, threads, steps) && Reached(b, threads, steps).channel != []
    ensures var p := Reached(b, threads, steps);
      var i := p.channel[0].index;
      i < |b.inputs| && Slots(|b.inputs|, p.received)[i].None?
  {
    RunKeepsPartition(b, threads, steps);
    var p := Reached(b, threads, steps);
    var d := p.channel[0];
    CarryingAt(p.channel, d);
    assert Places(b, p, d.index) == 1;
    SlotFilled(|b.inputs|, p.received, d.index);
  }

  /** No input is handed to two workers, nor to a worker after its result was sent. */
  lemma InputsAreExclusive<I, R>(b: Batch<I, R>, threads: nat, steps: seq<Step>, w: nat)
    requires IsRun(b, threads, steps)
    requires w < |Reached(b, threads, steps).workers| && Reached(b, threads, steps).workers[w].Busy?
    ensures var p := Reached(b, threads, steps);
      var i := p.workers[w].index;
      && i < p.next
      && (forall v :: 0 <= v < |p.workers| && v != w ==> p.workers[v] != Busy(i))
      && (forall d :: d in p.channel || d in p.received ==> d.index != i)
  {
    RunKeepsPartition(b, threads, steps);
    var p := Reached(b, threads, steps);
    var i := p.workers[w].index;
    BusyAt(p.workers, w, i);
    assert Places(b, p, i) <= 1;
    forall v | 0 <= v < |p.workers| && v != w
      ensures p.workers[v] != Busy(i)
    {
      if p.workers[v] == Busy(i) {
        BusyTwice(p.workers, if v < w then v else w, if v < w then w else v, i);
      }
    }
    forall d | d in p.channel || d in p.received
      ensures d.index != i
    {
      if d in p.channel {
        CarryingAt(p.channel, d);
      } else {
        CarryingAt(p.received, d);
      }
    }
  }

  // ---------------------------------------------------------------------
  // Runs end, and end well

  /** What one thread still has to do besides taking inputs: send its result, and leave. */
  ghost function Duty(worker: Worker): nat {
    match worker
    case Ready => 1
    case Busy(_) => 3
    case Gone => 0
  }

  ghost function Duties(workers: seq<Worker>): nat {
    if workers == [] then 0 else Duties(workers[..|workers| - 1]) + Duty(workers[|workers| - 1])
  }

  /**
    What is left to do: three steps per pending input, two per input in flight, one per message, one per thread to
    leave.
  */
  ghost function WorkLeft<I, R>(b: Batch<I, R>, p: Pool<R>): nat
    requires p.next <= |b.inputs|
  {
    3 * (|b.inputs| - p.next) + Duties(p.workers) + |p.channel|
  }

  lemma {:induction false} DutiesUpdate(workers: seq<Worker>, w: nat, now: Worker)
    requires w < |workers|
    ensures Duties(workers[w := now]) + Duty(workers[w]) == Duties(workers) + Duty(now)
  {
    var n := |workers| - 1;
    if w == n {
      assert workers[w := now][..n] == workers[..n];
    } else {
      assert workers[w := now][..n] == workers[..n][w := now];
      DutiesUpdate(workers[..n], w, now);
    }
  }

  /** Every step leaves exactly one unit less. */
  lemma StepDoesWork<I, R>(b: Batch<I, R>, p: Pool<R>, step: Step)
    requires p.next <= |b.inputs| && Enabled(b, p, step)
    ensures After(b, p, step).next <= |b.inputs|
    ensures WorkLeft(b, After(b, p, step)) == WorkLeft(b, p) - 1
  {
    match step
    case Take(w) => DutiesUpdate(p.workers, w, Busy(p.next));
    case Leave(w) => DutiesUpdate(p.workers, w, Gone);
    case Send(w) => DutiesUpdate(p.workers, w, Ready);
    case Receive =>
  }

  lemma {:induction false} StartDuties(threads: nat)
    ensures Duties(Spawned(threads)) == threads
  {
    if threads > 0 {
      assert Spawned(threads)[..threads - 1] == Spawned(threads - 1);
      StartDuties(threads - 1);
    }
  }

  /** Every run is finite: it can never be longer than three steps per input and one per thread. */
  lemma {:induction false} RunsAreBounded<I, R>(b: Batch<I, R>, threads: nat, steps: seq<Step>)
    requires IsRun(b, threads, steps)
    ensures Reached(b, threads, steps).next <= |b.inputs|
    ensures |steps| + WorkLeft(b, Reached(b, threads, steps)) == 3 * |b.inputs| + threads
  {
    if steps == [] {
      StartDuties(threads);
    } else {
      var before := steps[..|steps| - 1];
      RunsAreBounded(b, threads, before);
      StepDoesWork(b, Reached(b, threads, before), steps[|steps| - 1]);
    }
  }

  /** The receiver's loop ends when the channel is empty and every sender has been dropped. */
  ghost predicate Finished<R>(p: Pool<R>) {
    p.channel == [] && forall w :: 0 <= w < |p.workers| ==> p.workers[w].Gone?
  }

  /** Until then some thread can always move: there is no deadlock. */
  lemma SomeStepIsEnabled<I, R>(b: Batch<I, R>, threads: nat, steps: seq<Step>) returns (step: Step)
    requires IsRun(b, threads, steps) && !Finished(Reached(b, threads, steps))
    ensures Enabled(b, Reached(b, threads, steps), step)
  {
    RunKeepsPartition(b, threads, steps);
    var p := Reached(b, threads, steps);
    if p.channel != [] {
      step := Receive;
    } else {
      var w :| 0 <= w < |p.workers| && !p.workers[w].Gone?;
      if p.workers[w].Busy? {
        BusyAt(p.workers, w, p.workers[w].index);
        assert Places(b, p, p.workers[w].index) >= 1;
        step := Send(w);
      } else if p.next < |b.inputs| {
        step := Take(w);
      } else {
        step := Leave(w);
      }
    }
  }

  lemma {:induction false} GoneIsIdle(workers: seq<Worker>, i: nat)
    requires forall w :: 0 <= w < |workers| ==> workers[w].Gone?
    ensures BusyWith(workers, i) == 0
  {
    if workers != [] {
      GoneIsIdle(workers[..|workers| - 1], i);
    }
  }

  /** A worker leaves only once the iterator is exhausted. */
  lemma {:induction false} GoneMeansExhausted<I, R>(b: Batch<I, R>, threads: nat, steps: seq<Step>, w: nat)
    requires IsRun(b, threads, steps) && w < |Reached(b, threads, steps).workers|
    requires Reached(b, threads, steps).workers[w].Gone?
    ensures Reached(b, threads, steps).next >= |b.inputs|
  {
    if steps != [] {
      var before := Reached(b, threads, steps[..|steps| - 1]);
      if before.workers[w].Gone? {
        GoneMeansExhausted(b, threads, steps[..|steps| - 1], w);
      }
    }
  }

  /** The results a batch is for: the processor applied to every input, in input order. */
  ghost function Expected<I, R>(b: Batch<I, R>): (r: seq<R>)
    ensures |r| == |b.inputs|
  {
    seq(|b.inputs|, i requires 0 <= i < |b.inputs| => b.process(i, b.inputs[i]))
  }

  /**
  Whatever the interleaving and the number of threads, a finished run has filled
  every slot with the result of its input.
  */
  lemma FinishedRunDelivers<I, R>(b: Batch<I, R>, threads: nat, steps: seq<Step>)
    requires threads > 0
    requires IsRun(b, threads, steps) && Finished(Reached(b, threads, steps))
    ensures var slots := Slots(|b.inputs|, Reached(b, threads, steps).received);
      forall i :: 0 <= i < |b.inputs| ==> slots[i] == Some(Expected(b)[i])
  {
    RunKeepsPartition(b, threads, steps);
    var p := Reached(b, threads, steps);
    GoneMeansExhausted(b, threads, steps, 0);
    forall i | 0 <= i < |b.inputs|
      ensures Slots(|b.inputs|, p.received)[i] == Some(Expected(b)[i])
    {
      GoneIsIdle(p.workers, i);
      assert Places(b, p, i) == 1;
      SlotFilled(|b.inputs|, p.received, i);
    }
  }

  /** The receiver that collects first and orders afterwards fills the same slots as the one that orders as it goes. */
  method OrderDeliveries<R>(n: nat, received: seq<Delivery<R>>) returns (ordered: seq<Option<R>>)
    requires forall d :: d in received ==> d.index < n
    ensures ordered == Slots(n, received)
  {
    ordered := seq(n, _ => None);
    for k := 0 to |received|
      invariant ordered == Slots(n, received[..k])
    {
      assert received[..k + 1][..k] == received[..k];
      assert received[k] in received;
      ordered := ordered[received[k].index := Some(received[k].result)];
    }
    assert received[..|received|] == received;
  }
}
