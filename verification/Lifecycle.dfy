/** The ordered source lifecycle: producers run concurrently under a sliding window, a scheduler commits
    their results in input order, and an emitter serialises their output unit by unit. One step is one
    channel operation, callback or cancellation; a run is any interleaving of steps. */
module Lifecycle {
  import opened Bytes

  /** The `index`-th item sent by a unit. */
  datatype Item = Item(unit: nat, index: nat)

  /** What a producer returns: its costs, the reason it was skipped if it was, and whether it failed. */
  datatype Result = Result(costBytes: int, costItems: int, skipped: Option<string>, failed: bool)

  /** A producer is waiting between sending an item and taking its acknowledgement. */
  datatype Producer = NotLaunched | Running | Waiting(index: nat, ack: Option<bool>) | Sent(result: Result) | Dropped

  /** Cancelling lies between a downstream error and the cancellation it triggers. */
  datatype Emitter = Serving | Delivering(index: nat) | Cancelling | Stopped

  /** A failed scheduler stopped inside a commit or outside one. */
  datatype Phase = Selecting | Draining | Closing(result: Result) | Finished | Failed(inCommit: bool)

  datatype Stats = Stats(completed: nat, failed: nat, skipped: map<string, nat>, costBytes: int, costItems: int,
                         peak: nat)

  datatype State = State(
    n: nat, c: nat,
    producers: seq<Producer>, sent: seq<nat>, buffer: seq<Option<nat>>, closed: seq<bool>,
    cur: nat, called: nat, emitter: Emitter, delivered: seq<Item>, failedCall: Option<Item>, emitCancelled: bool,
    parentDone: bool, runCancelled: bool, panicked: bool,
    phase: Phase, next: nat, launched: nat, pending: map<nat, Result>, queue: seq<(nat, Result)>,
    committed: seq<Result>, stats: Stats)

  datatype Step =
    | Cancel
    | Send(unit: nat) | TakeAck(unit: nat) | Abandon(unit: nat) | Return(unit: nat, result: Result) | Drop(unit: nat)
    | Take | Deliver(ok: bool) | CancelEmitter | NextUnit | StopEmitter
    | Receive | StartCommit | FinishCommit(ok: bool) | AbortCommit | EndDrain | AbortSelect

  predicate EmitterDone(s: State) { s.parentDone || s.emitCancelled }
  predicate RunDone(s: State) { s.parentDone || s.runCancelled }

  predicate Sized(s: State) {
    && |s.producers| == s.n && |s.sent| == s.n && |s.buffer| == s.n && |s.closed| == s.n
    && s.next <= s.launched <= s.n && s.cur <= s.n
  }

  /** The guards of the steps. A send into a closed channel is not guarded: it panics. */
  predicate Enabled(s: State, step: Step)
    requires Sized(s)
  {
    match step
    case Cancel => !s.parentDone
    case Send(i) => i < s.n && s.producers[i].Running? && (s.buffer[i].None? || s.closed[i])
    case TakeAck(i) => i < s.n && s.producers[i].Waiting? && s.producers[i].ack.Some?
    case Abandon(i) => i < s.n && s.producers[i].Waiting? && (RunDone(s) || EmitterDone(s))
    case Return(i, _) => i < s.n && s.producers[i].Running? && |s.queue| < s.c
    case Drop(i) => i < s.n && s.producers[i].Running? && RunDone(s)
    case Take => s.emitter.Serving? && s.cur < s.n && s.buffer[s.cur].Some?
    case Deliver(_) => s.emitter.Delivering?
    case CancelEmitter => s.emitter.Cancelling?
    case NextUnit => s.emitter.Serving? && s.cur < s.n && s.buffer[s.cur].None? && s.closed[s.cur]
    case StopEmitter => s.emitter.Serving? && EmitterDone(s)
    case Receive => s.phase.Selecting? && s.queue != []
    case StartCommit => s.phase.Draining? && s.next in s.pending && s.next < s.n
    case FinishCommit(_) => s.phase.Closing? && s.cur > s.next
    case AbortCommit => s.phase.Closing? && EmitterDone(s)
    case EndDrain => s.phase.Draining? && s.next !in s.pending
    case AbortSelect => s.phase.Selecting? && s.parentDone
  }

  /** The acknowledgement of an item reaches its producer if that still waits for it. */
  function Acked(p: Producer, index: nat, ok: bool): Producer {
    if p == Waiting(index, None) then Waiting(index, Some(ok)) else p
  }

  function Tally(stats: Stats, r: Result): Stats {
    var skipped :=
      if r.skipped.None? then stats.skipped
      else
        var reason := r.skipped.value;
        stats.skipped[reason := (if reason in stats.skipped then stats.skipped[reason] else 0) + 1];
    Stats(if r.failed then stats.completed else stats.completed + 1,
          if r.failed then stats.failed + 1 else stats.failed,
          skipped, stats.costBytes + r.costBytes, stats.costItems + r.costItems, stats.peak)
  }

  /** How far the window reaches once `next` units are committed. */
  function WindowEnd(s: State): nat {
    if s.next + s.c < s.n then s.next + s.c else s.n
  }

  /** Starts the producers from `launched` up to `end`. */
  function Launch(producers: seq<Producer>, launched: nat, end: nat): (r: seq<Producer>)
    requires launched <= end <= |producers|
    ensures |r| == |producers|
    ensures forall i :: 0 <= i < |r| ==> r[i] == if launched <= i < end then Running else producers[i]
  {
    seq(|producers|, i requires 0 <= i < |producers| => if launched <= i < end then Running else producers[i])
  }

  function Max(a: nat, b: nat): nat { if a < b then b else a }

  /** The effect of a step. */
  function Next(s: State, step: Step): State
    requires Sized(s) && Enabled(s, step)
  {
    match step
    case Cancel => s.(parentDone := true)
    case Send(i) =>
      if s.closed[i] then s.(panicked := true)
      else s.(producers := s.producers[i := Waiting(s.sent[i], None)], buffer := s.buffer[i := Some(s.sent[i])],
              sent := s.sent[i := s.sent[i] + 1])
    case TakeAck(i) => s.(producers := s.producers[i := Running])
    case Abandon(i) => s.(producers := s.producers[i := Running])
    case Return(i, r) => s.(producers := s.producers[i := Sent(r)], queue := s.queue + [(i, r)])
    case Drop(i) => s.(producers := s.producers[i := Dropped])
    case Take => s.(emitter := Delivering(s.buffer[s.cur].value), buffer := s.buffer[s.cur := None])
    case Deliver(ok) =>
      var k := s.emitter.index;
      var producers := if s.cur < s.n then s.producers[s.cur := Acked(s.producers[s.cur], k, ok)] else s.producers;
      if ok then s.(emitter := Serving, delivered := s.delivered + [Item(s.cur, k)], called := s.called + 1,
                    producers := producers)
      else s.(emitter := Cancelling, failedCall := Some(Item(s.cur, k)), producers := producers)
    case CancelEmitter => s.(emitter := Stopped, emitCancelled := true)
    case NextUnit => s.(cur := s.cur + 1, called := 0)
    case StopEmitter => s.(emitter := Stopped)
    case Receive =>
      var pending := s.pending[s.queue[0].0 := s.queue[0].1];
      s.(queue := s.queue[1..], pending := pending, phase := Draining,
         stats := s.stats.(peak := Max(s.stats.peak, |pending|)))
    case StartCommit =>
      if s.closed[s.next] then s.(panicked := true)
      else s.(phase := Closing(s.pending[s.next]), pending := s.pending - {s.next}, closed := s.closed[s.next := true])
    case FinishCommit(ok) =>
      if !ok || s.failedCall.Some? || EmitterDone(s) then s.(phase := Failed(true), runCancelled := true)
      else s.(phase := Draining, committed := s.committed + [s.phase.result], stats := Tally(s.stats, s.phase.result),
              next := s.next + 1)
    case AbortCommit => s.(phase := Failed(true), runCancelled := true)
    case EndDrain =>
      var end := Max(s.launched, WindowEnd(s));
      s.(producers := Launch(s.producers, s.launched, end), launched := end,
         phase := if s.next < s.n then Selecting else if s.parentDone then Failed(false) else Finished)
    case AbortSelect => s.(phase := Failed(false), runCancelled := true)
  }

  /** At the start one window of producers runs. */
  predicate Init(s: State) {
    && s.n > 0 && 1 <= s.c <= s.n
    && |s.producers| == s.n && (forall i :: 0 <= i < s.n ==> s.producers[i] == if i < s.c then Running else NotLaunched)
    && |s.sent| == s.n && (forall i :: 0 <= i < s.n ==> s.sent[i] == 0)
    && |s.buffer| == s.n && (forall i :: 0 <= i < s.n ==> s.buffer[i] == None)
    && |s.closed| == s.n && (forall i :: 0 <= i < s.n ==> !s.closed[i])
    && s.cur == 0 && s.called == 0 && s.emitter == Serving && s.delivered == [] && s.failedCall == None
    && !s.emitCancelled && !s.parentDone && !s.runCancelled && !s.panicked
    && s.phase == Selecting && s.next == 0 && s.launched == s.c && s.pending == map[] && s.queue == []
    && s.committed == []
    && s.stats == Stats(0, 0, map[], 0, 0, 0)
  }

  // ---------------------------------------------------------------------------------------
  // What has been delivered

  ghost function Items(unit: nat, k: nat): seq<Item> {
    if k == 0 then [] else Items(unit, k - 1) + [Item(unit, k - 1)]
  }

  /** Everything the first `cur` units sent, unit by unit. */
  ghost function Flat(sent: seq<nat>, cur: nat): seq<Item>
    requires cur <= |sent|
  {
    if cur == 0 then [] else Flat(sent, cur - 1) + Items(cur - 1, sent[cur - 1])
  }

  lemma {:induction false} FlatFrame(sent: seq<nat>, sent': seq<nat>, cur: nat)
    requires cur <= |sent| && cur <= |sent'| && forall i :: 0 <= i < cur ==> sent[i] == sent'[i]
    ensures Flat(sent, cur) == Flat(sent', cur)
  {
    if cur > 0 { FlatFrame(sent, sent', cur - 1); }
  }

  // ---------------------------------------------------------------------------------------
  // The invariant

  /** How many channels have been closed. */
  ghost function ClosedTo(s: State): nat {
    if s.phase.Closing? || s.phase == Failed(true) then s.next + 1 else s.next
  }

  /** The units whose result has not been handed to a commit. */
  ghost predicate Open(s: State, i: nat) {
    ClosedTo(s) <= i < s.launched
  }

  ghost predicate ProducerOk(s: State, i: nat)
    requires Sized(s) && i < s.n
  {
    && (s.producers[i].NotLaunched? <==> i >= s.launched)
    && (s.producers[i].NotLaunched? ==> s.sent[i] == 0)
    && (s.closed[i] <==> i < ClosedTo(s))
    && (s.closed[i] ==> s.producers[i].Sent?)
    && (s.producers[i].Dropped? ==> RunDone(s))
    && (s.producers[i].Waiting? ==> s.producers[i].index + 1 == s.sent[i])
    && (s.producers[i].Waiting? && s.producers[i].ack.None? ==>
          s.buffer[i] == Some(s.producers[i].index) || (i == s.cur && s.emitter == Delivering(s.producers[i].index)))
    && (s.producers[i].Waiting? && s.producers[i].ack == Some(true) ==>
        i < s.cur || (i == s.cur && s.producers[i].index < s.called))
  }

  ghost predicate BufferOk(s: State, i: nat)
    requires Sized(s) && i < s.n
  {
    && (s.buffer[i].Some? ==> s.buffer[i].value + 1 == s.sent[i])
    && (i < s.cur ==> s.buffer[i].None?)
    && (i > s.cur ==> s.sent[i] == if s.buffer[i].Some? then 1 else 0)
  }

  /** What the current unit has sent: delivered, being delivered, or in the buffer. */
  ghost predicate CurrentOk(s: State)
    requires Sized(s)
  {
    if s.cur == s.n then s.called == 0 && !s.emitter.Delivering? && !s.emitter.Cancelling?
    else
      match s.emitter
      case Serving => s.sent[s.cur] == s.called + if s.buffer[s.cur].Some? then 1 else 0
      case Delivering(k) => k == s.called && s.sent[s.cur] == s.called + 1 + if s.buffer[s.cur].Some? then 1 else 0
      case Cancelling => s.called < s.sent[s.cur]
      case Stopped => s.called <= s.sent[s.cur]
  }

  ghost predicate EmitterOk(s: State)
    requires Sized(s)
  {
    && s.next <= s.cur <= ClosedTo(s)
    && s.delivered == Flat(s.sent, s.cur) + Items(s.cur, s.called)
    && CurrentOk(s)
    && (s.failedCall.Some? ==>
        s.failedCall == Some(Item(s.cur, s.called)) && s.cur < s.n && (s.emitter.Cancelling? || s.emitter.Stopped?))
    && (s.emitCancelled ==> s.failedCall.Some?)
    && (s.emitter.Cancelling? ==> s.failedCall.Some?)
    && (s.emitter.Stopped? ==> EmitterDone(s))
  }

  /** An open unit's result is nowhere before it is sent, and in the queue or pending after. */
  ghost predicate Queued(s: State, i: nat) {
    exists k :: 0 <= k < |s.queue| && s.queue[k].0 == i
  }

  ghost predicate PlacedOk(s: State, i: nat)
    requires Sized(s) && i < s.n
  {
    s.producers[i].Sent? && Open(s, i) ==> i in s.pending || Queued(s, i)
  }

  ghost predicate QueueOk(s: State)
    requires Sized(s)
  {
    && (forall k :: 0 <= k < |s.queue| ==> QueuedRight(s, s.queue[k]))
    && (forall k, l :: 0 <= k < l < |s.queue| ==> s.queue[k].0 != s.queue[l].0)
  }

  ghost predicate QueuedRight(s: State, entry: (nat, Result))
    requires Sized(s)
  {
    Open(s, entry.0) && s.producers[entry.0] == Sent(entry.1) && entry.0 !in s.pending
  }

  ghost predicate PendingOk(s: State)
    requires Sized(s)
  {
    forall i :: i in s.pending ==> Open(s, i) && s.producers[i] == Sent(s.pending[i])
  }

  ghost predicate WindowOk(s: State)
    requires Sized(s)
  {
    && 1 <= s.c <= s.n && s.launched <= s.next + s.c
    && (s.phase.Selecting? || s.phase.Closing? || s.phase == Failed(true) ==> s.next < s.n && s.next < s.launched)
    && (s.phase.Selecting? ==> s.next !in s.pending)
    && (s.phase.Closing? ==> s.producers[s.next] == Sent(s.phase.result))
    && (s.phase.Finished? ==> s.next == s.n)
    && (s.runCancelled ==> s.phase.Failed?)
    && s.stats.peak <= s.c
  }

  ghost function Folded(results: seq<Result>, peak: nat): Stats {
    if results == [] then Stats(0, 0, map[], 0, 0, peak)
    else Tally(Folded(results[..|results| - 1], peak), results[|results| - 1])
  }

  /** The committed results are those of units 0, 1, 2, ... in order, and the totals are their fold. */
  ghost predicate CommitsOk(s: State)
    requires Sized(s)
  {
    && |s.committed| == s.next
    && (forall i :: 0 <= i < s.next ==> s.producers[i] == Sent(s.committed[i]))
    && s.stats == Folded(s.committed, s.stats.peak)
  }

  ghost predicate UnitOk(s: State, i: nat)
    requires Sized(s) && i < s.n
  {
    ProducerOk(s, i) && BufferOk(s, i) && PlacedOk(s, i)
  }

  ghost predicate Inv(s: State) {
    && Sized(s) && !s.panicked
    && (forall i :: 0 <= i < s.n ==> UnitOk(s, i))
    && EmitterOk(s) && QueueOk(s) && PendingOk(s) && WindowOk(s) && CommitsOk(s)
  }

  // ---------------------------------------------------------------------------------------
  // Every step keeps it

  lemma {:induction false} FoldedPeak(results: seq<Result>, p: nat, q: nat)
    ensures Folded(results, p).(peak := q) == Folded(results, q)
  {
    if results != [] { FoldedPeak(results[..|results| - 1], p, q); }
  }

  /** A set of numbers in a window is no larger than the window. */
  lemma {:induction false} KeysInWindow(keys: set<nat>, lo: nat, hi: nat)
    requires forall i :: i in keys ==> lo <= i < hi
    ensures |keys| <= hi - lo || keys == {}
    decreases hi - lo
  {
    if lo < hi {
      KeysInWindow(keys - {hi - 1}, lo, hi - 1);
      if hi - 1 in keys { assert keys == (keys - {hi - 1}) + {hi - 1}; } else { assert keys == keys - {hi - 1}; }
    } else {
      assert keys == {};
    }
  }

  lemma InitInv(s: State)
    requires Init(s)
    ensures Inv(s)
  {
  }

  lemma CancelKeeps(s: State)
    requires Inv(s) && Enabled(s, Cancel)
    ensures Inv(Next(s, Cancel))
  {
    var t := Next(s, Cancel);
    forall j | 0 <= j < t.n ensures UnitOk(t, j) { assert UnitOk(s, j); }
  }

  lemma SendKeeps(s: State, i: nat)
    requires Inv(s) && Enabled(s, Send(i))
    ensures Inv(Next(s, Send(i)))
  {
    assert UnitOk(s, i);
    SendEmits(s, i);
    SendUnits(s, i);
  }

  lemma SendEmits(s: State, i: nat)
    requires Inv(s) && Enabled(s, Send(i))
    ensures EmitterOk(Next(s, Send(i)))
  {
    assert UnitOk(s, i);
    FlatFrame(s.sent, Next(s, Send(i)).sent, s.cur);
  }

  lemma SendUnits(s: State, i: nat)
    requires Inv(s) && Enabled(s, Send(i))
    ensures forall j :: 0 <= j < s.n ==> UnitOk(Next(s, Send(i)), j)
  {
    var t := Next(s, Send(i));
    assert UnitOk(s, i);
    forall j | 0 <= j < t.n ensures UnitOk(t, j) { assert UnitOk(s, j); }
  }

  lemma TakeAckUnits(s: State, i: nat)
    requires Inv(s) && Enabled(s, TakeAck(i))
    ensures forall j :: 0 <= j < s.n ==> UnitOk(Next(s, TakeAck(i)), j)
  {
    var t := Next(s, TakeAck(i));
    forall j | 0 <= j < t.n ensures UnitOk(t, j) { assert UnitOk(s, j); }
  }

  lemma TakeAckKeeps(s: State, i: nat)
    requires Inv(s) && Enabled(s, TakeAck(i))
    ensures Inv(Next(s, TakeAck(i)))
  {
    TakeAckUnits(s, i);
  }

  lemma AbandonUnits(s: State, i: nat)
    requires Inv(s) && Enabled(s, Abandon(i))
    ensures forall j :: 0 <= j < s.n ==> UnitOk(Next(s, Abandon(i)), j)
  {
    var t := Next(s, Abandon(i));
    forall j | 0 <= j < t.n ensures UnitOk(t, j) { assert UnitOk(s, j); }
  }

  lemma AbandonKeeps(s: State, i: nat)
    requires Inv(s) && Enabled(s, Abandon(i))
    ensures Inv(Next(s, Abandon(i)))
  {
    AbandonUnits(s, i);
  }

  lemma ReturnQueues(s: State, i: nat, r: Result)
    requires Inv(s) && Enabled(s, Return(i, r))
    ensures QueueOk(Next(s, Return(i, r)))
  {
    var t := Next(s, Return(i, r));
    assert UnitOk(s, i);
    forall k | 0 <= k < |t.queue| ensures QueuedRight(t, t.queue[k]) {
      assert k < |s.queue| ==> t.queue[k] == s.queue[k] && QueuedRight(s, s.queue[k]);
    }
    forall k, l | 0 <= k < l < |t.queue| ensures t.queue[k].0 != t.queue[l].0 {
      assert QueuedRight(s, s.queue[k]) && t.queue[k] == s.queue[k];
      assert l < |s.queue| ==> t.queue[l] == s.queue[l];
    }
  }

  lemma ReturnUnits(s: State, i: nat, r: Result)
    requires Inv(s) && Enabled(s, Return(i, r))
    ensures forall j :: 0 <= j < s.n ==> UnitOk(Next(s, Return(i, r)), j)
  {
    var t := Next(s, Return(i, r));
    forall j | 0 <= j < t.n ensures UnitOk(t, j) {
      assert UnitOk(s, j);
      if j == i { assert t.queue[|s.queue|].0 == i; }
      if k :| 0 <= k < |s.queue| && s.queue[k].0 == j { assert t.queue[k].0 == j; }
    }
  }

  lemma ReturnKeeps(s: State, i: nat, r: Result)
    requires Inv(s) && Enabled(s, Return(i, r))
    ensures Inv(Next(s, Return(i, r)))
  {
    ReturnUnits(s, i, r);
    ReturnQueues(s, i, r);
  }

  lemma DropUnits(s: State, i: nat)
    requires Inv(s) && Enabled(s, Drop(i))
    ensures forall j :: 0 <= j < s.n ==> UnitOk(Next(s, Drop(i)), j)
  {
    var t := Next(s, Drop(i));
    forall j | 0 <= j < t.n ensures UnitOk(t, j) { assert UnitOk(s, j); }
  }

  lemma DropKeeps(s: State, i: nat)
    requires Inv(s) && Enabled(s, Drop(i))
    ensures Inv(Next(s, Drop(i)))
  {
    DropUnits(s, i);
  }

  lemma TakeUnits(s: State)
    requires Inv(s) && Enabled(s, Take)
    ensures forall j :: 0 <= j < s.n ==> UnitOk(Next(s, Take), j)
  {
    assert UnitOk(s, s.cur);
    var t := Next(s, Take);
    forall j | 0 <= j < t.n ensures UnitOk(t, j) { assert UnitOk(s, j); }
  }

  lemma TakeKeeps(s: State)
    requires Inv(s) && Enabled(s, Take)
    ensures Inv(Next(s, Take))
  {
    assert UnitOk(s, s.cur);
    TakeUnits(s);
  }

  lemma DeliverOkUnits(s: State)
    requires Inv(s) && Enabled(s, Deliver(true))
    ensures forall j :: 0 <= j < s.n ==> UnitOk(Next(s, Deliver(true)), j)
  {
    var t := Next(s, Deliver(true));
    forall j | 0 <= j < t.n ensures UnitOk(t, j) { assert UnitOk(s, j); }
  }

  lemma DeliverOkEmits(s: State)
    requires Inv(s) && Enabled(s, Deliver(true))
    ensures EmitterOk(Next(s, Deliver(true)))
  {
  }

  /** An acknowledgement changes no result. */
  lemma DeliverOkResults(s: State)
    requires Inv(s) && Enabled(s, Deliver(true))
    ensures QueueOk(Next(s, Deliver(true))) && PendingOk(Next(s, Deliver(true)))
    ensures WindowOk(Next(s, Deliver(true))) && CommitsOk(Next(s, Deliver(true)))
  {
    var t := Next(s, Deliver(true));
    forall k | 0 <= k < |t.queue| ensures QueuedRight(t, t.queue[k]) { assert QueuedRight(s, s.queue[k]); }
  }

  lemma DeliverOkKeeps(s: State)
    requires Inv(s) && Enabled(s, Deliver(true))
    ensures Inv(Next(s, Deliver(true)))
  {
    DeliverOkUnits(s);
    DeliverOkEmits(s);
    DeliverOkResults(s);
  }

  lemma DeliverFailUnits(s: State)
    requires Inv(s) && Enabled(s, Deliver(false))
    ensures forall j :: 0 <= j < s.n ==> UnitOk(Next(s, Deliver(false)), j)
  {
    var t := Next(s, Deliver(false));
    forall j | 0 <= j < t.n ensures UnitOk(t, j) { assert UnitOk(s, j); }
  }

  lemma DeliverFailEmits(s: State)
    requires Inv(s) && Enabled(s, Deliver(false))
    ensures EmitterOk(Next(s, Deliver(false)))
  {
  }

  lemma DeliverFailResults(s: State)
    requires Inv(s) && Enabled(s, Deliver(false))
    ensures QueueOk(Next(s, Deliver(false))) && PendingOk(Next(s, Deliver(false)))
    ensures WindowOk(Next(s, Deliver(false))) && CommitsOk(Next(s, Deliver(false)))
  {
    var t := Next(s, Deliver(false));
    forall k | 0 <= k < |t.queue| ensures QueuedRight(t, t.queue[k]) { assert QueuedRight(s, s.queue[k]); }
  }

  lemma DeliverFailKeeps(s: State)
    requires Inv(s) && Enabled(s, Deliver(false))
    ensures Inv(Next(s, Deliver(false)))
  {
    DeliverFailUnits(s);
    DeliverFailEmits(s);
    DeliverFailResults(s);
  }

  lemma CancelEmitterUnits(s: State)
    requires Inv(s) && Enabled(s, CancelEmitter)
    ensures forall j :: 0 <= j < s.n ==> UnitOk(Next(s, CancelEmitter), j)
  {
    var t := Next(s, CancelEmitter);
    forall j | 0 <= j < t.n ensures UnitOk(t, j) { assert UnitOk(s, j); }
  }

  lemma CancelEmitterKeeps(s: State)
    requires Inv(s) && Enabled(s, CancelEmitter)
    ensures Inv(Next(s, CancelEmitter))
  {
    CancelEmitterUnits(s);
  }

  lemma NextUnitUnits(s: State)
    requires Inv(s) && Enabled(s, NextUnit)
    ensures forall j :: 0 <= j < s.n ==> UnitOk(Next(s, NextUnit), j)
  {
    assert UnitOk(s, s.cur);
    if s.cur + 1 < s.n { assert UnitOk(s, s.cur + 1); }
    var t := Next(s, NextUnit);
    forall j | 0 <= j < t.n ensures UnitOk(t, j) { assert UnitOk(s, j); }
  }

  lemma NextUnitEmits(s: State)
    requires Inv(s) && Enabled(s, NextUnit)
    ensures EmitterOk(Next(s, NextUnit))
  {
    assert UnitOk(s, s.cur);
    if s.cur + 1 < s.n { assert UnitOk(s, s.cur + 1); }
  }

  lemma NextUnitKeeps(s: State)
    requires Inv(s) && Enabled(s, NextUnit)
    ensures Inv(Next(s, NextUnit))
  {
    NextUnitUnits(s);
    NextUnitEmits(s);
  }

  lemma StopEmitterUnits(s: State)
    requires Inv(s) && Enabled(s, StopEmitter)
    ensures forall j :: 0 <= j < s.n ==> UnitOk(Next(s, StopEmitter), j)
  {
    var t := Next(s, StopEmitter);
    forall j | 0 <= j < t.n ensures UnitOk(t, j) { assert UnitOk(s, j); }
  }

  lemma StopEmitterKeeps(s: State)
    requires Inv(s) && Enabled(s, StopEmitter)
    ensures Inv(Next(s, StopEmitter))
  {
    StopEmitterUnits(s);
  }

  lemma ReceiveQueues(s: State)
    requires Inv(s) && Enabled(s, Receive)
    ensures QueueOk(Next(s, Receive)) && PendingOk(Next(s, Receive)) && |Next(s, Receive).pending| <= s.c
  {
    var t := Next(s, Receive);
    assert QueuedRight(s, s.queue[0]);
    forall k | 0 <= k < |t.queue| ensures QueuedRight(t, t.queue[k]) {
      assert t.queue[k] == s.queue[k + 1] && QueuedRight(s, s.queue[k + 1]);
    }
    KeysInWindow(t.pending.Keys, s.next, s.launched);
  }

  lemma ReceiveUnits(s: State)
    requires Inv(s) && Enabled(s, Receive)
    ensures forall j :: 0 <= j < s.n ==> UnitOk(Next(s, Receive), j)
  {
    var t := Next(s, Receive);
    forall j | 0 <= j < t.n ensures UnitOk(t, j) {
      assert UnitOk(s, j);
      if k :| 0 <= k < |s.queue| && s.queue[k].0 == j { assert k > 0 ==> t.queue[k - 1].0 == j; }
    }
  }

  lemma ReceiveKeeps(s: State)
    requires Inv(s) && Enabled(s, Receive)
    ensures Inv(Next(s, Receive))
  {
    ReceiveUnits(s);
    ReceiveQueues(s);
    FoldedPeak(s.committed, s.stats.peak, Next(s, Receive).stats.peak);
  }

  lemma StartCommitUnits(s: State)
    requires Inv(s) && Enabled(s, StartCommit)
    ensures !s.closed[s.next] && forall j :: 0 <= j < s.n ==> UnitOk(Next(s, StartCommit), j)
  {
    assert UnitOk(s, s.next);
    var t := Next(s, StartCommit);
    forall j | 0 <= j < t.n ensures UnitOk(t, j) { assert UnitOk(s, j); }
  }

  lemma StartCommitKeeps(s: State)
    requires Inv(s) && Enabled(s, StartCommit)
    ensures Inv(Next(s, StartCommit))
  {
    StartCommitUnits(s);
    StartCommitQueues(s);
  }

  lemma StartCommitQueues(s: State)
    requires Inv(s) && Enabled(s, StartCommit) && !s.closed[s.next]
    ensures QueueOk(Next(s, StartCommit)) && PendingOk(Next(s, StartCommit))
  {
    var t := Next(s, StartCommit);
    forall k | 0 <= k < |t.queue| ensures QueuedRight(t, t.queue[k]) { assert QueuedRight(s, s.queue[k]); }
  }

  lemma FinishCommitUnits(s: State, ok: bool)
    requires Inv(s) && Enabled(s, FinishCommit(ok))
    ensures forall j :: 0 <= j < s.n ==> UnitOk(Next(s, FinishCommit(ok)), j)
  {
    var t := Next(s, FinishCommit(ok));
    forall j | 0 <= j < t.n ensures UnitOk(t, j) { assert UnitOk(s, j); }
  }

  lemma FinishCommitKeeps(s: State, ok: bool)
    requires Inv(s) && Enabled(s, FinishCommit(ok))
    ensures Inv(Next(s, FinishCommit(ok)))
  {
    FinishCommitUnits(s, ok);
  }

  lemma AbortCommitUnits(s: State)
    requires Inv(s) && Enabled(s, AbortCommit)
    ensures forall j :: 0 <= j < s.n ==> UnitOk(Next(s, AbortCommit), j)
  {
    var t := Next(s, AbortCommit);
    forall j | 0 <= j < t.n ensures UnitOk(t, j) { assert UnitOk(s, j); }
  }

  lemma AbortCommitKeeps(s: State)
    requires Inv(s) && Enabled(s, AbortCommit)
    ensures Inv(Next(s, AbortCommit))
  {
    AbortCommitUnits(s);
  }

  lemma EndDrainUnits(s: State)
    requires Inv(s) && Enabled(s, EndDrain)
    ensures forall j :: 0 <= j < s.n ==> UnitOk(Next(s, EndDrain), j)
  {
    var t := Next(s, EndDrain);
    forall j | 0 <= j < t.n ensures UnitOk(t, j) { assert UnitOk(s, j); }
  }

  lemma EndDrainKeeps(s: State)
    requires Inv(s) && Enabled(s, EndDrain)
    ensures Inv(Next(s, EndDrain))
  {
    EndDrainUnits(s);
    EndDrainQueues(s);
  }

  lemma EndDrainQueues(s: State)
    requires Inv(s) && Enabled(s, EndDrain)
    ensures QueueOk(Next(s, EndDrain)) && PendingOk(Next(s, EndDrain)) && CommitsOk(Next(s, EndDrain))
  {
    var t := Next(s, EndDrain);
    forall k | 0 <= k < |t.queue| ensures QueuedRight(t, t.queue[k]) { assert QueuedRight(s, s.queue[k]); }
  }

  lemma AbortSelectKeeps(s: State)
    requires Inv(s) && Enabled(s, AbortSelect)
    ensures Inv(Next(s, AbortSelect))
  {
    var t := Next(s, AbortSelect);
    forall j | 0 <= j < t.n ensures UnitOk(t, j) { assert UnitOk(s, j); }
  }

  /** Whatever step is taken, the invariant holds after it. */
  lemma StepKeeps(s: State, step: Step)
    requires Inv(s) && Enabled(s, step)
    ensures Inv(Next(s, step))
  {
    match step
    case Cancel => CancelKeeps(s);
    case Send(i) => SendKeeps(s, i);
    case TakeAck(i) => TakeAckKeeps(s, i);
    case Abandon(i) => AbandonKeeps(s, i);
    case Return(i, r) => ReturnKeeps(s, i, r);
    case Drop(i) => DropKeeps(s, i);
    case Take => TakeKeeps(s);
    case Deliver(ok) => if ok { DeliverOkKeeps(s); } else { DeliverFailKeeps(s); }
    case CancelEmitter => CancelEmitterKeeps(s);
    case NextUnit => NextUnitKeeps(s);
    case StopEmitter => StopEmitterKeeps(s);
    case Receive => ReceiveKeeps(s);
    case StartCommit => StartCommitKeeps(s);
    case FinishCommit(ok) => FinishCommitKeeps(s, ok);
    case AbortCommit => AbortCommitKeeps(s);
    case EndDrain => EndDrainKeeps(s);
    case AbortSelect => AbortSelectKeeps(s);
  }

  // ---------------------------------------------------------------------------------------
  // Runs

  ghost predicate Runs(s: State, steps: seq<Step>)
    decreases |steps|
  {
    steps == [] || (Sized(s) && Enabled(s, steps[0]) && Runs(Next(s, steps[0]), steps[1..]))
  }

  ghost function After(s: State, steps: seq<Step>): State
    requires Runs(s, steps)
    decreases |steps|
  {
    if steps == [] then s else After(Next(s, steps[0]), steps[1..])
  }

  /** The invariant holds in every state of every interleaving. */
  lemma {:induction false} RunKeeps(s: State, steps: seq<Step>)
    requires Inv(s) && Runs(s, steps)
    ensures Inv(After(s, steps))
    decreases |steps|
  {
    if steps != [] {
      StepKeeps(s, steps[0]);
      RunKeeps(Next(s, steps[0]), steps[1..]);
    }
  }

  /** No interleaving sends into a closed channel or closes one twice. */
  lemma NeverPanics(s: State, steps: seq<Step>)
    requires Init(s) && Runs(s, steps)
    ensures !After(s, steps).panicked
  {
    InitInv(s);
    RunKeeps(s, steps);
  }

  lemma StepChanges(s: State, step: Step)
    requires Sized(s) && Enabled(s, step)
    ensures var t := Next(s, step);
            && t.delivered ==
                (if step == Deliver(true) then s.delivered + [Item(s.cur, s.emitter.index)] else s.delivered)
            && t.failedCall == (if step == Deliver(false) then Some(Item(s.cur, s.emitter.index)) else s.failedCall)
  {
    match step
    case Deliver(ok) => assert ok || !ok;
    case FinishCommit(ok) => assert ok || !ok;
    case _ => assert Next(s, step).delivered == s.delivered;
  }

  lemma StepCommits(s: State, step: Step)
    requires Sized(s) && Enabled(s, step)
    ensures Next(s, step).committed == s.committed
              || (s.phase.Closing? && Next(s, step).committed == s.committed + [s.phase.result])
  {
    match step
    case FinishCommit(ok) => assert ok || !ok;
    case _ => assert Next(s, step).committed == s.committed;
  }

  /** Output and commits only grow, and nothing is delivered after the first downstream error. */
  lemma StepGrows(s: State, step: Step)
    requires Sized(s) && Enabled(s, step) && (s.failedCall.Some? ==> !s.emitter.Delivering?)
    ensures s.delivered <= Next(s, step).delivered && s.committed <= Next(s, step).committed
    ensures s.failedCall.Some? ==> Next(s, step).delivered == s.delivered && Next(s, step).failedCall == s.failedCall
  {
    StepChanges(s, step);
    StepCommits(s, step);
  }

  lemma {:induction false} RunGrows(s: State, steps: seq<Step>)
    requires Inv(s) && Runs(s, steps)
    ensures s.delivered <= After(s, steps).delivered && s.committed <= After(s, steps).committed
    ensures s.failedCall.Some? ==>
              After(s, steps).delivered == s.delivered && After(s, steps).failedCall == s.failedCall
    decreases |steps|
  {
    if steps != [] {
      StepGrows(s, steps[0]);
      StepKeeps(s, steps[0]);
      RunGrows(Next(s, steps[0]), steps[1..]);
    }
  }

  // ---------------------------------------------------------------------------------------
  // Order of the output

  /** By unit, then by the order of sending. */
  predicate Before(a: Item, b: Item) {
    a.unit < b.unit || (a.unit == b.unit && a.index < b.index)
  }

  ghost predicate InOrder(items: seq<Item>) {
    forall i, j :: 0 <= i < j < |items| ==> Before(items[i], items[j])
  }

  lemma {:induction false} ItemsExact(unit: nat, k: nat)
    ensures InOrder(Items(unit, k)) && forall x :: x in Items(unit, k) <==> x.unit == unit && x.index < k
  {
    if k > 0 {
      ItemsExact(unit, k - 1);
      var front := Items(unit, k - 1);
      assert forall i :: 0 <= i < |front| ==> front[i] in front;
    }
  }

  lemma JoinInOrder(a: seq<Item>, b: seq<Item>)
    requires InOrder(a) && InOrder(b) && forall x, y :: x in a && y in b ==> Before(x, y)
    ensures InOrder(a + b)
  {
    forall i, j | 0 <= i < j < |a + b| ensures Before((a + b)[i], (a + b)[j]) {
      if i < |a| <= j { assert a[i] in a && b[j - |a|] in b; }
    }
  }

  lemma {:induction false} FlatExact(sent: seq<nat>, cur: nat)
    requires cur <= |sent|
    ensures InOrder(Flat(sent, cur)) && forall x :: x in Flat(sent, cur) <==> x.unit < cur && x.index < sent[x.unit]
  {
    if cur > 0 {
      FlatExact(sent, cur - 1);
      ItemsExact(cur - 1, sent[cur - 1]);
      JoinInOrder(Flat(sent, cur - 1), Items(cur - 1, sent[cur - 1]));
    }
  }

  /** Downstream sees units in order and each unit's items in the order they were sent, none twice, and a failed call
      comes last. Exactly the items of finished units and the leading ones of the current unit are delivered. */
  lemma OutputInOrder(s: State)
    requires Inv(s)
    ensures InOrder(s.delivered)
    ensures forall x :: x in s.delivered <==>
              (x.unit < s.cur && x.index < s.sent[x.unit]) || (x.unit == s.cur && x.index < s.called)
    ensures s.failedCall.Some? ==> InOrder(s.delivered + [s.failedCall.value])
  {
    FlatExact(s.sent, s.cur);
    ItemsExact(s.cur, s.called);
    JoinInOrder(Flat(s.sent, s.cur), Items(s.cur, s.called));
    if s.failedCall.Some? {
      JoinInOrder(s.delivered, [s.failedCall.value]);
    }
  }

  /** A nil acknowledgement means that the item was delivered. */
  lemma NilAckDelivered(s: State, i: nat)
    requires Inv(s) && i < s.n && s.producers[i].Waiting? && s.producers[i].ack == Some(true)
    ensures Item(i, s.producers[i].index) in s.delivered
  {
    assert UnitOk(s, i);
    OutputInOrder(s);
  }

  // ---------------------------------------------------------------------------------------
  // The scheduler

  /** Committed units form a gap-free prefix with the results their producers returned, the next unit is in flight or
      pending, and neither the window nor the two queues exceed the concurrency. */
  lemma WindowBounded(s: State)
    requires Inv(s)
    ensures |s.committed| == s.next && forall i :: 0 <= i < s.next ==> s.producers[i] == Sent(s.committed[i])
    ensures s.launched - s.next <= s.c && |s.pending| <= s.c && |s.queue| <= s.c && s.stats.peak <= s.c
    ensures s.phase.Selecting? && !RunDone(s) ==>
              s.producers[s.next].Running? || s.producers[s.next].Waiting? || Queued(s, s.next)
  {
    KeysInWindow(s.pending.Keys, s.next, s.launched);
    QueueFits(s);
    if s.phase.Selecting? {
      assert UnitOk(s, s.next);
    }
  }

  lemma QueueFits(s: State)
    requires Inv(s)
    ensures |s.queue| <= s.launched - ClosedTo(s) || s.queue == []
  {
    if s.queue != [] {
      var offsets := seq(|s.queue|,
                         k requires 0 <= k < |s.queue| =>
                           if s.queue[k].0 >= ClosedTo(s) then s.queue[k].0 - ClosedTo(s) else 0);
      assert QueuedRight(s, s.queue[0]);
      forall k | 0 <= k < |s.queue|
        ensures offsets[k] == s.queue[k].0 - ClosedTo(s) && offsets[k] < s.launched - ClosedTo(s)
      {
        assert QueuedRight(s, s.queue[k]);
      }
      DistinctBound(offsets, s.launched - ClosedTo(s));
    }
  }

  /** A unit that still runs leaves room for its result. */
  lemma QueueHasRoom(s: State, i: nat)
    requires Inv(s) && i < s.n && s.producers[i].Running? && Open(s, i)
    ensures |s.queue| < s.c
  {
    var lo := ClosedTo(s);
    var offsets := seq(|s.queue|, k requires 0 <= k < |s.queue| => if s.queue[k].0 >= lo then s.queue[k].0 - lo else 0);
    forall k | 0 <= k < |s.queue|
      ensures offsets[k] == s.queue[k].0 - lo && offsets[k] < s.launched - lo && offsets[k] != i - lo
    {
      assert QueuedRight(s, s.queue[k]);
    }
    DistinctBound(offsets + [i - lo], s.launched - lo);
  }

  /** Every step but the three that bring trouble: an outside cancellation, a downstream error and a commit that
      fails. */
  predicate Smooth(step: Step) {
    !step.Cancel? && step != Deliver(false) && step != FinishCommit(false)
  }

  /** Until the scheduler has finished or failed, and without an outside cancellation, some step can be taken. */
  lemma Progress(s: State) returns (step: Step)
    requires Inv(s) && !s.phase.Finished? && !s.phase.Failed? && !s.parentDone
    ensures !step.Send? && Smooth(step) && Enabled(s, step)
  {
    if s.phase.Draining? {
      step := if s.next in s.pending then StartCommit else EndDrain;
    } else {
      assert UnitOk(s, s.next);
      if s.emitter.Delivering? {
        step := Deliver(true);
      } else if s.emitter.Cancelling? {
        step := CancelEmitter;
      } else if s.phase.Closing? {
        step := if s.cur > s.next then FinishCommit(true)
                else if s.emitter.Stopped? then AbortCommit
                else if s.buffer[s.cur].Some? then Take else NextUnit;
      } else if Queued(s, s.next) {
        step := Receive;
      } else if s.producers[s.next].Running? {
        QueueHasRoom(s, s.next);
        step := Return(s.next, Result(0, 0, None, false));
      } else if s.producers[s.next].ack.Some? {
        step := TakeAck(s.next);
      } else {
        step := if s.emitter.Stopped? then Abandon(s.next) else Take;
      }
    }
  }

  // ---------------------------------------------------------------------------------------
  // Every run ends

  ghost function ProducerRank(p: Producer): nat {
    match p
    case NotLaunched => 4
    case Running => 3
    case Waiting(_, _) => 4
    case Sent(_) => 0
    case Dropped => 0
  }

  ghost function ProducersRank(producers: seq<Producer>, n: nat): nat
    requires n <= |producers|
  {
    if n == 0 then 0 else ProducersRank(producers, n - 1) + ProducerRank(producers[n - 1])
  }

  ghost function BuffersRank(buffer: seq<Option<nat>>, n: nat): nat
    requires n <= |buffer|
  {
    if n == 0 then 0 else BuffersRank(buffer, n - 1) + (if buffer[n - 1].Some? then 3 else 0)
  }

  ghost function EmitterRank(e: Emitter): nat {
    match e
    case Serving => 2
    case Delivering(_) => 4
    case Cancelling => 1
    case Stopped => 0
  }

  ghost function PhaseRank(phase: Phase): nat {
    match phase
    case Selecting => 1
    case Draining => 2
    case Closing(_) => 1
    case Finished => 0
    case Failed(_) => 0
  }

  /** How many more steps a run can take, but for the sends in it. */
  ghost function Rank(s: State): nat
    requires Sized(s)
  {
    ProducersRank(s.producers, s.n) + BuffersRank(s.buffer, s.n) + EmitterRank(s.emitter) + (s.n - s.cur)
      + 2 * |s.queue|
    + PhaseRank(s.phase) + 2 * (s.n - s.next) + (if s.parentDone then 0 else 1)
  }

  const SEND_COST: nat := 10

  ghost function Sends(steps: seq<Step>): nat {
    if steps == [] then 0 else (if steps[0].Send? then 1 else 0) + Sends(steps[1..])
  }

  lemma {:induction false} ProducerMoves(producers: seq<Producer>, i: nat, p: Producer, n: nat)
    requires i < |producers| && n <= |producers|
    ensures ProducersRank(producers[i := p], n) == ProducersRank(producers, n)
              + (if i < n then ProducerRank(p) - ProducerRank(producers[i]) else 0)
  {
    if n > 0 { ProducerMoves(producers, i, p, n - 1); }
  }

  lemma {:induction false} BufferMoves(buffer: seq<Option<nat>>, i: nat, b: Option<nat>, n: nat)
    requires i < |buffer| && n <= |buffer|
    ensures BuffersRank(buffer[i := b], n) == BuffersRank(buffer, n)
              + (if i < n then (if b.Some? then 3 else 0) - (if buffer[i].Some? then 3 else 0) else 0)
  {
    if n > 0 { BufferMoves(buffer, i, b, n - 1); }
  }

  lemma {:induction false} LaunchRank(producers: seq<Producer>, launched: nat, end: nat, n: nat)
    requires launched <= end <= |producers| && n <= |producers|
    requires forall i :: launched <= i < end ==> producers[i].NotLaunched?
    ensures ProducersRank(Launch(producers, launched, end), n) <= ProducersRank(producers, n)
  {
    if n > 0 { LaunchRank(producers, launched, end, n - 1); }
  }

  lemma ProducerStepRanks(s: State, step: Step)
    requires Inv(s) && Enabled(s, step) && (step.Send? || step.TakeAck? || step.Abandon? || step.Return? || step.Drop?)
    ensures Sized(Next(s, step)) && Rank(Next(s, step)) + 1 <= Rank(s) + (if step.Send? then SEND_COST else 0)
  {
    var i := step.unit;
    assert UnitOk(s, i);
    ProducerMoves(s.producers, i, Next(s, step).producers[i], s.n);
    if step.Send? { BufferMoves(s.buffer, i, Some(s.sent[i]), s.n); }
  }

  lemma EmitterStepRanks(s: State, step: Step)
    requires Inv(s) && Enabled(s, step)
    requires step.Take? || step.Deliver? || step.CancelEmitter? || step.NextUnit? || step.StopEmitter?
    ensures Sized(Next(s, step)) && Rank(Next(s, step)) + 1 <= Rank(s)
  {
    if step.Take? { BufferMoves(s.buffer, s.cur, None, s.n); }
    if step.Deliver? && s.cur < s.n {
      ProducerMoves(s.producers, s.cur, Acked(s.producers[s.cur], s.emitter.index, step.ok), s.n);
    }
  }

  lemma SchedulerStepRanks(s: State, step: Step)
    requires Inv(s) && Enabled(s, step)
    requires step.Receive? || step.FinishCommit? || step.AbortCommit? || step.AbortSelect? || step.Cancel?
    ensures Sized(Next(s, step)) && Rank(Next(s, step)) + 1 <= Rank(s)
  {
    if step.FinishCommit? { FinishCommitRanks(s, step.ok); }
  }

  lemma FinishCommitRanks(s: State, ok: bool)
    requires Inv(s) && Enabled(s, FinishCommit(ok))
    ensures Sized(Next(s, FinishCommit(ok))) && Rank(Next(s, FinishCommit(ok))) + 1 <= Rank(s)
  {
  }

  lemma StartCommitRanks(s: State)
    requires Inv(s) && Enabled(s, StartCommit)
    ensures Sized(Next(s, StartCommit)) && Rank(Next(s, StartCommit)) + 1 <= Rank(s)
  {
    assert UnitOk(s, s.next);
  }

  lemma EndDrainRanks(s: State)
    requires Inv(s) && Enabled(s, EndDrain)
    ensures Sized(Next(s, EndDrain)) && Rank(Next(s, EndDrain)) + 1 <= Rank(s)
  {
    var end := Max(s.launched, WindowEnd(s));
    forall i | s.launched <= i < end ensures s.producers[i].NotLaunched? { assert UnitOk(s, i); }
    LaunchRank(s.producers, s.launched, end, s.n);
  }

  /** Every step uses up rank; only sending refunds some. */
  lemma StepRanks(s: State, step: Step)
    requires Inv(s) && Enabled(s, step)
    ensures Sized(Next(s, step)) && Rank(Next(s, step)) + 1 <= Rank(s) + (if step.Send? then SEND_COST else 0)
  {
    if step.Send? || step.TakeAck? || step.Abandon? || step.Return? || step.Drop? {
      ProducerStepRanks(s, step);
    } else if step.Take? || step.Deliver? || step.CancelEmitter? || step.NextUnit? || step.StopEmitter? {
      EmitterStepRanks(s, step);
    } else if step.EndDrain? {
      EndDrainRanks(s);
    } else if step.StartCommit? {
      StartCommitRanks(s);
    } else {
      SchedulerStepRanks(s, step);
    }
  }

  /** A run is no longer than its start allows, plus a constant for each item sent. */
  lemma {:induction false} RunsEnd(s: State, steps: seq<Step>)
    requires Inv(s) && Runs(s, steps)
    ensures |steps| <= Rank(s) + SEND_COST * Sends(steps)
    decreases |steps|
  {
    if steps != [] {
      StepRanks(s, steps[0]);
      StepKeeps(s, steps[0]);
      RunsEnd(Next(s, steps[0]), steps[1..]);
    }
  }

  predicate SchedulerDone(s: State) {
    s.phase.Finished? || s.phase.Failed?
  }

  /** Nothing but an outside cancellation can still happen. */
  ghost predicate Maximal(s: State) {
    Sized(s) && forall step :: Enabled(s, step) ==> step.Cancel?
  }

  /** After an outside cancellation the scheduler never waits. */
  lemma CancelledProgress(s: State) returns (step: Step)
    requires Inv(s) && !SchedulerDone(s) && s.parentDone
    ensures !step.Cancel? && !step.Send? && Enabled(s, step)
  {
    match s.phase
    case Draining => step := if s.next in s.pending then StartCommit else EndDrain;
    case Closing(_) => step := AbortCommit;
    case Selecting => step := AbortSelect;
  }

  /** A run from the start that went on as long as it could, cancelled from outside or not, has finished or failed; and
      it was no longer than a bound in the number of units and of items sent. */
  lemma MaximalRunEnds(s: State, steps: seq<Step>)
    requires Init(s) && Runs(s, steps) && Maximal(After(s, steps))
    ensures SchedulerDone(After(s, steps)) && |steps| <= Rank(s) + SEND_COST * Sends(steps)
  {
    InitInv(s);
    RunKeeps(s, steps);
    RunsEnd(s, steps);
    var t := After(s, steps);
    if !SchedulerDone(t) {
      var step;
      if t.parentDone { step := CancelledProgress(t); } else { step := Progress(t); }
    }
  }

  /** From every state some continuation, without another item and without an outside cancellation, finishes or
      fails. */
  lemma {:induction false} CanComplete(s: State) returns (steps: seq<Step>)
    requires Inv(s) && !s.parentDone
    ensures Runs(s, steps) && SchedulerDone(After(s, steps)) && !After(s, steps).parentDone && Sends(steps) == 0
    decreases Rank(s)
  {
    if SchedulerDone(s) {
      steps := [];
    } else {
      var step := Progress(s);
      StepRanks(s, step);
      StepKeeps(s, step);
      StepCancels(s, step);
      var rest := CanComplete(Next(s, step));
      steps := [step] + rest;
      assert steps[1..] == rest;
    }
  }

  // ---------------------------------------------------------------------------------------
  // Runs without trouble succeed

  ghost predicate AllSmooth(steps: seq<Step>) {
    forall i :: 0 <= i < |steps| ==> Smooth(steps[i])
  }

  /** Nothing was cancelled or has failed: the emitter serves, every acknowledgement so far is nil, no producer
      gave up. */
  ghost predicate Calm(s: State) {
    && !s.parentDone && !s.emitCancelled && !s.runCancelled && s.failedCall.None? && !s.phase.Failed?
    && (s.emitter.Serving? || s.emitter.Delivering?)
    && forall i :: 0 <= i < |s.producers| ==> CalmProducer(s.producers[i])
  }

  ghost predicate CalmProducer(p: Producer) {
    !p.Dropped? && (p.Waiting? ==> p.ack != Some(false))
  }

  lemma StepCalm(s: State, step: Step)
    requires Sized(s) && Calm(s) && Enabled(s, step) && Smooth(step)
    ensures Calm(Next(s, step))
  {
    match step
    case Deliver(ok) => assert Next(s, Deliver(true)).emitter.Serving?;
    case FinishCommit(ok) => assert Next(s, FinishCommit(true)).phase.Draining?;
    case EndDrain => assert !Next(s, EndDrain).phase.Failed?;
    case _ =>
  }

  /** Without any of the three steps, no state of any run is failed and the emitter never stops. */
  lemma {:induction false} RunCalm(s: State, steps: seq<Step>)
    requires Calm(s) && Runs(s, steps) && AllSmooth(steps)
    ensures Calm(After(s, steps))
    decreases |steps|
  {
    if steps != [] {
      assert Smooth(steps[0]);
      StepCalm(s, steps[0]);
      RunCalm(Next(s, steps[0]), steps[1..]);
    }
  }

  /** A run that failed, or whose emitter stopped, was cancelled from outside, met a downstream error or a failing
      commit. */
  lemma FailureHasCause(s: State, steps: seq<Step>)
    requires Init(s) && Runs(s, steps)
    requires After(s, steps).phase.Failed? || After(s, steps).emitter.Stopped?
    ensures exists i :: 0 <= i < |steps|
              && (steps[i] == Cancel || steps[i] == Deliver(false) || steps[i] == FinishCommit(false))
  {
    if AllSmooth(steps) { RunCalm(s, steps); }
  }

  /** A run from the start without any of the three steps that went on as long as it could has finished: every unit is
      committed with the result its producer returned, and everything that was sent is delivered in order. */
  lemma SmoothRunSucceeds(s: State, steps: seq<Step>)
    requires Init(s) && Runs(s, steps) && AllSmooth(steps) && Maximal(After(s, steps))
    ensures var t := After(s, steps);
            && t.phase.Finished? && |t.committed| == |t.producers| == |t.sent| == s.n
            && t.delivered == Flat(t.sent, s.n)
            && t.stats.completed + t.stats.failed == s.n
            && forall i :: 0 <= i < s.n ==> t.producers[i] == Sent(t.committed[i])
  {
    RunCalm(s, steps);
    MaximalRunEnds(s, steps);
    InitInv(s);
    RunKeeps(s, steps);
    RunSize(s, steps);
    SuccessComplete(After(s, steps));
  }

  lemma {:induction false} RunSize(s: State, steps: seq<Step>)
    requires Runs(s, steps)
    ensures After(s, steps).n == s.n
    decreases |steps|
  {
    if steps != [] { RunSize(Next(s, steps[0]), steps[1..]); }
  }

  /** As long as none of the three steps was taken, some continuation without them and without another item finishes. */
  lemma {:induction false} CanSucceed(s: State) returns (steps: seq<Step>)
    requires Inv(s) && Calm(s)
    ensures Runs(s, steps) && AllSmooth(steps) && Sends(steps) == 0
    ensures After(s, steps).phase.Finished? && |After(s, steps).committed| == s.n
    decreases Rank(s)
  {
    if s.phase.Finished? {
      steps := [];
    } else {
      var step := Progress(s);
      StepRanks(s, step);
      StepKeeps(s, step);
      StepCalm(s, step);
      var rest := CanSucceed(Next(s, step));
      steps := [step] + rest;
      StepFirst(s, step, rest, steps);
    }
  }

  lemma StepFirst(s: State, step: Step, rest: seq<Step>, steps: seq<Step>)
    requires Sized(s) && Enabled(s, step) && Smooth(step) && !step.Send? && Runs(Next(s, step), rest) && AllSmooth(rest)
    requires steps == [step] + rest
    ensures Runs(s, steps) && AllSmooth(steps) && Sends(steps) == Sends(rest)
    ensures After(s, steps) == After(Next(s, step), rest) && Next(s, step).n == s.n
  {
    assert steps[1..] == rest;
  }

  /** A delivered item is acknowledged to the producer that waits for it, with the outcome of the call. */
  lemma AckGiven(s: State, ok: bool)
    requires Inv(s) && Enabled(s, Deliver(ok)) && s.producers[s.cur] == Waiting(s.emitter.index, None)
    ensures Next(s, Deliver(ok)).producers[s.cur] == Waiting(s.emitter.index, Some(ok))
  {
    assert UnitOk(s, s.cur);
  }

  // ---------------------------------------------------------------------------------------
  // What the steps of a run leave behind

  ghost function SendsOf(steps: seq<Step>, i: nat): nat {
    if steps == [] then 0 else (if steps[0] == Send(i) then 1 else 0) + SendsOf(steps[1..], i)
  }

  lemma StepSends(s: State, step: Step, i: nat)
    requires Inv(s) && Enabled(s, step) && i < s.n
    ensures |Next(s, step).sent| == s.n && Next(s, step).n == s.n
    ensures Next(s, step).sent[i] == s.sent[i] + if step == Send(i) then 1 else 0
  {
    match step
    case Send(j) => assert UnitOk(s, j);
    case Deliver(ok) => assert Next(s, step).sent == s.sent;
    case _ => assert Next(s, step).sent == s.sent;
  }

  /** Every item a producer sends counts. */
  lemma {:induction false} SentExactly(s: State, steps: seq<Step>, i: nat)
    requires Inv(s) && Runs(s, steps) && i < s.n
    ensures |After(s, steps).sent| == s.n && After(s, steps).sent[i] == s.sent[i] + SendsOf(steps, i)
    decreases |steps|
  {
    if steps != [] {
      StepSends(s, steps[0], i);
      StepKeeps(s, steps[0]);
      SentExactly(Next(s, steps[0]), steps[1..], i);
    }
  }

  lemma AckKeepsSent(s: State, ok: bool, i: nat)
    requires Inv(s) && Enabled(s, Deliver(ok)) && i < s.n && s.producers[i].Sent?
    ensures |Next(s, Deliver(ok)).producers| == s.n && Next(s, Deliver(ok)).producers[i] == s.producers[i]
  {
    assert i == s.cur ==> Acked(s.producers[i], s.emitter.index, ok) == s.producers[i];
  }

  lemma LaunchKeepsSent(s: State, i: nat)
    requires Inv(s) && Enabled(s, EndDrain) && i < s.n && s.producers[i].Sent?
    ensures |Next(s, EndDrain).producers| == s.n && Next(s, EndDrain).producers[i] == s.producers[i]
  {
    assert UnitOk(s, i);
  }

  /** A result that was sent stays what it is. */
  lemma SentStays(s: State, step: Step, i: nat)
    requires Inv(s) && Enabled(s, step) && i < s.n && s.producers[i].Sent?
    ensures |Next(s, step).producers| == s.n && Next(s, step).producers[i] == s.producers[i]
  {
    match step
    case EndDrain => LaunchKeepsSent(s, i);
    case Deliver(ok) => AckKeepsSent(s, ok, i);
    case FinishCommit(ok) => assert Next(s, step).producers == s.producers;
    case _ =>
  }

  lemma {:induction false} ResultStays(s: State, steps: seq<Step>, i: nat)
    requires Inv(s) && Runs(s, steps) && i < s.n && s.producers[i].Sent?
    ensures |After(s, steps).producers| == s.n && After(s, steps).producers[i] == s.producers[i]
    decreases |steps|
  {
    if steps != [] {
      SentStays(s, steps[0], i);
      StepKeeps(s, steps[0]);
      ResultStays(Next(s, steps[0]), steps[1..], i);
    }
  }

  /** What a producer returned is what is committed for its unit. */
  lemma {:induction false} CommittedReturned(s: State, steps: seq<Step>, k: nat)
    requires Inv(s) && Runs(s, steps) && k < |steps| && steps[k].Return? && steps[k].unit < s.n
    ensures var t := After(s, steps);
            && |t.producers| == s.n && t.producers[steps[k].unit] == Sent(steps[k].result)
            && (steps[k].unit < |t.committed| ==> t.committed[steps[k].unit] == steps[k].result)
    decreases |steps|
  {
    var t := Next(s, steps[0]);
    StepKeeps(s, steps[0]);
    StepSends(s, steps[0], steps[k].unit);
    if k == 0 {
      ResultStays(t, steps[1..], steps[0].unit);
      RunKeeps(t, steps[1..]);
    } else {
      CommittedReturned(t, steps[1..], k - 1);
    }
  }

  /** Failure is for good, and so is a downstream error. */
  lemma StepFails(s: State, step: Step)
    requires Inv(s) && Enabled(s, step)
    ensures s.phase.Failed? || step == FinishCommit(false) ==> Next(s, step).phase.Failed?
    ensures s.failedCall.Some? || step == Deliver(false) ==> Next(s, step).failedCall.Some?
  {
    match step
    case FinishCommit(ok) => assert ok || Next(s, step).phase.Failed?;
    case Deliver(ok) => assert ok || Next(s, step).failedCall.Some?;
    case _ =>
  }

  lemma {:induction false} TroubleStays(s: State, steps: seq<Step>)
    requires Inv(s) && Runs(s, steps)
    ensures s.phase.Failed? ==> After(s, steps).phase.Failed?
    ensures s.failedCall.Some? ==> After(s, steps).failedCall.Some?
    decreases |steps|
  {
    if steps != [] {
      StepFails(s, steps[0]);
      StepKeeps(s, steps[0]);
      TroubleStays(Next(s, steps[0]), steps[1..]);
    }
  }

  /** A run that finished met no downstream error and no failing commit. */
  lemma {:induction false} FinishedWithoutTrouble(s: State, steps: seq<Step>, k: nat)
    requires Inv(s) && Runs(s, steps) && After(s, steps).phase.Finished? && k < |steps|
    ensures steps[k] != Deliver(false) && steps[k] != FinishCommit(false)
    decreases |steps|
  {
    var t := Next(s, steps[0]);
    StepKeeps(s, steps[0]);
    if k == 0 {
      StepFails(s, steps[0]);
      TroubleStays(t, steps[1..]);
      RunKeeps(t, steps[1..]);
      SuccessComplete(After(s, steps));
    } else {
      FinishedWithoutTrouble(t, steps[1..], k - 1);
    }
  }

  // ---------------------------------------------------------------------------------------
  // The window is used, and its peak recorded

  /** Whenever the scheduler waits for results, the window is full. */
  ghost predicate Full(s: State) {
    s.phase.Selecting? ==> s.launched == if s.next + s.c < s.n then s.next + s.c else s.n
  }

  lemma EndDrainFull(s: State)
    requires Inv(s) && Enabled(s, EndDrain)
    ensures Full(Next(s, EndDrain))
  {
    assert s.launched <= WindowEnd(s);
  }

  lemma StepFull(s: State, step: Step)
    requires Inv(s) && Full(s) && Enabled(s, step) && !step.EndDrain?
    ensures Full(Next(s, step))
  {
    var t := Next(s, step);
    match step
    case FinishCommit(ok) => assert !t.phase.Selecting?;
    case Deliver(ok) =>
      assert t.launched == s.launched && t.phase == s.phase && t.next == s.next && t.c == s.c && t.n == s.n;
    case _ =>
      assert t.phase.Selecting? ==>
               t.launched == s.launched && t.phase == s.phase && t.next == s.next && t.n == s.n;
  }

  lemma {:induction false} FullKept(s: State, steps: seq<Step>)
    requires Inv(s) && Full(s) && Runs(s, steps)
    ensures Full(After(s, steps))
    decreases |steps|
  {
    if steps != [] {
      StepKeeps(s, steps[0]);
      if steps[0].EndDrain? { EndDrainFull(s); } else { StepFull(s, steps[0]); }
      FullKept(Next(s, steps[0]), steps[1..]);
    }
  }

  lemma WindowFull(s: State, steps: seq<Step>)
    requires Init(s) && Runs(s, steps)
    ensures Full(After(s, steps))
  {
    InitInv(s);
    FullKept(s, steps);
  }

  /** The most results that were pending in any state of the run. */
  ghost function MostPending(s: State, steps: seq<Step>): nat
    requires Runs(s, steps)
    decreases |steps|
  {
    if steps == [] then |s.pending| else Max(|s.pending|, MostPending(Next(s, steps[0]), steps[1..]))
  }

  lemma StepPeak(s: State, step: Step)
    requires Sized(s) && Enabled(s, step) && |s.pending| <= s.stats.peak
    ensures Next(s, step).stats.peak == Max(s.stats.peak, |Next(s, step).pending|)
  {
    match step
    case StartCommit => assert |s.pending - {s.next}| <= |s.pending| by { Fewer(s.pending, s.next); }
    case FinishCommit(ok) => assert Next(s, step).pending == s.pending;
    case Deliver(ok) => assert Next(s, step).pending == s.pending;
    case _ =>
  }

  lemma Fewer(m: map<nat, Result>, k: nat)
    ensures |m - {k}| <= |m|
  {
    assert (m - {k}).Keys == m.Keys - {k};
    assert |(m - {k}).Keys| <= |m.Keys|;
  }

  lemma {:induction false} PeakFollows(s: State, steps: seq<Step>)
    requires Runs(s, steps) && |s.pending| <= s.stats.peak
    ensures After(s, steps).stats.peak == Max(s.stats.peak, MostPending(s, steps))
    decreases |steps|
  {
    if steps != [] {
      StepPeak(s, steps[0]);
      PeakFollows(Next(s, steps[0]), steps[1..]);
    }
  }

  /** The recorded peak is the most results that were ever pending. */
  lemma PeakExact(s: State, steps: seq<Step>)
    requires Init(s) && Runs(s, steps)
    ensures After(s, steps).stats.peak == MostPending(s, steps)
  {
    PeakFollows(s, steps);
  }

  lemma StepCancels(s: State, step: Step)
    requires Sized(s) && Enabled(s, step)
    ensures Next(s, step).parentDone <==> s.parentDone || step.Cancel?
  {
    match step
    case Cancel => assert Next(s, step).parentDone;
    case _ => assert Next(s, step).parentDone == s.parentDone;
  }

  ghost function SumBytes(results: seq<Result>): int {
    if results == [] then 0 else SumBytes(results[..|results| - 1]) + results[|results| - 1].costBytes
  }

  ghost function SumItems(results: seq<Result>): int {
    if results == [] then 0 else SumItems(results[..|results| - 1]) + results[|results| - 1].costItems
  }

  ghost function CountSkipped(results: seq<Result>, reason: string): nat {
    if results == [] then 0
    else
      var last := results[|results| - 1];
      CountSkipped(results[..|results| - 1], reason) + (if last.skipped == Some(reason) then 1 else 0)
  }

  ghost function CountFailed(results: seq<Result>): nat {
    if results == [] then 0
    else CountFailed(results[..|results| - 1]) + (if results[|results| - 1].failed then 1 else 0)
  }

  /** The totals are the sums over the results. */
  lemma {:induction false} FoldedExact(results: seq<Result>, peak: nat)
    ensures var stats := Folded(results, peak);
            && stats.failed == CountFailed(results) && stats.completed + stats.failed == |results|
            && stats.costBytes == SumBytes(results) && stats.costItems == SumItems(results)
            && forall reason ::
                (if reason in stats.skipped then stats.skipped[reason] else 0) == CountSkipped(results, reason)
  {
    if results != [] { FoldedExact(results[..|results| - 1], peak); }
  }

  /** On success every unit is committed once, in order; the totals add up; and everything any unit sent was delivered,
      in order. */
  lemma SuccessComplete(s: State)
    requires Inv(s) && s.phase.Finished?
    ensures |s.committed| == s.n && s.stats.completed + s.stats.failed == s.n
    ensures s.stats.costBytes == SumBytes(s.committed) && s.stats.costItems == SumItems(s.committed)
    ensures s.delivered == Flat(s.sent, s.n) && s.failedCall.None?
    ensures forall i :: 0 <= i < s.n ==> s.producers[i] == Sent(s.committed[i])
  {
    FoldedExact(s.committed, s.stats.peak);
  }

  // ---------------------------------------------------------------------------------------
  // Starting

  /** The state before any step, unless there is nothing to do or the concurrency is not positive. */
  function Start(n: nat, concurrency: int): (r: Option<State>)
    ensures r.Some? <==> n > 0 && concurrency >= 1
    ensures r.Some? ==> Init(r.value) && r.value.n == n && r.value.c == if concurrency < n then concurrency else n
  {
    if n == 0 || concurrency < 1 then None
    else
      var c := if concurrency < n then concurrency else n;
      Some(State(n, c, seq(n, i => if i < c then Running else NotLaunched), seq(n, i => 0), seq(n, i => None),
                 seq(n, i => false),
                 0, 0, Serving, [], None, false, false, false, false,
                 Selecting, 0, c, map[], [], [], Stats(0, 0, map[], 0, 0, 0)))
  }
}
