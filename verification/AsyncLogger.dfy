/**
 * logger/logger.go in asynchronous mode: producers announce a message to a wait group and send it to a channel, one
 * writer takes messages off the channel, and flushers signal the writer and wait for the wait group. Every
 * interleaving is a sequence of the steps below. A message is known by its number in the order of announcement.
 */
module AsyncLogger {
  import opened Text

  datatype Message = Message(level: int, body: string)

  /** A side output: its level and the messages written to it. */
  datatype Output = Output(level: int, lines: seq<nat>)

  /** The writer; `written` says whether the message in hand is out already, its `Done` still to come. */
  datatype Writer =
    | Idle
    | InHand(id: nat, written: bool)
    | Draining
    | DrainInHand(id: nat, written: bool)
    | Gone

  /**
   * A call of Flush; `mark` is the number of messages announced before it. Once its signal is taken it waits for the
   * wait group: Go blocks it if the count is not zero, releases it when the count gets there, and, when it runs again,
   * looks whether the count is still zero.
   */
  datatype Flusher =
    | Signalling(mark: nat)
    | Signalled(mark: nat)
    | Waiting(mark: nat)
    | Released(mark: nat)
    | Returned(mark: nat)

  datatype State = State(
    capacity: nat,
    log: seq<Message>,             // every message announced so far
    count: int,                    // the wait group
    pending: map<int, nat>,        // producers that have announced a message and not sent it yet
    sent: seq<nat>,                // everything sent, in the order of the channel
    channel: seq<nat>,
    writer: Writer,
    written: seq<nat>,             // everything written, in order
    outputs: seq<Output>,
    flushers: map<int, Flusher>,
    crashed: bool)                 // the wait group has panicked

  datatype Step =
    | Announce(producer: int, msg: Message)
    | Send(producer: int)
    | Receive
    | WriteOut
    | Done
    | CallFlush(flusher: int)
    | Signal(flusher: int)
    | Stop
    | Wait(flusher: int)
    | Wake(flusher: int)

  /** writeToOutputs on one output. */
  function WriteTo(o: Output, log: seq<Message>, id: nat): Output
    requires id < |log|
  {
    if o.level <= log[id].level then o.(lines := o.lines + [id]) else o
  }

  function WriteToAll(outputs: seq<Output>, log: seq<Message>, id: nat): seq<Output>
    requires id < |log|
  {
    seq(|outputs|, i requires 0 <= i < |outputs| => WriteTo(outputs[i], log, id))
  }

  predicate Holds(w: Writer) { w.InHand? || w.DrainInHand? }

  /** Messages taken off the channel and not yet written. */
  function Unwritten(w: Writer): seq<nat> { if Holds(w) && !w.written then [w.id] else [] }

  /** Whether the state allows the step now; where it does not, the goroutine blocks. */
  predicate Enabled(s: State, step: Step) {
    !s.crashed &&
    match step
    case Announce(p, _) => p !in s.pending
    case Send(p) => p in s.pending && (|s.channel| < s.capacity || (s.capacity == 0 && s.writer.Idle?))
    case Receive => s.channel != [] && (s.writer.Idle? || s.writer.Draining?)
    case WriteOut => Holds(s.writer) && !s.writer.written && s.writer.id < |s.log|
    case Done => Holds(s.writer) && s.writer.written
    case CallFlush(f) => f !in s.flushers
    case Signal(f) => f in s.flushers && s.flushers[f].Signalling? && s.writer.Idle?
    case Stop => s.writer.Draining? && s.channel == []
    case Wait(f) => f in s.flushers && s.flushers[f].Signalled?
    case Wake(f) => f in s.flushers && s.flushers[f].Released?
  }

  /** The count has come to zero: every blocked flush is released. */
  function Freed(flushers: map<int, Flusher>): map<int, Flusher> {
    map f | f in flushers :: if flushers[f].Waiting? then Released(flushers[f].mark) else flushers[f]
  }

  /**
   * An unbuffered channel hands the message straight to the waiting writer. A flush that is released and finds the
   * count above zero again panics: the wait group is reused before its Wait has returned.
   */
  function Next(s: State, step: Step): State
    requires Enabled(s, step)
  {
    match step
    case Announce(p, msg) => s.(log := s.log + [msg], count := s.count + 1, pending := s.pending[p := |s.log|])
    case Send(p) =>
      var t := s.(pending := s.pending - {p}, sent := s.sent + [s.pending[p]]);
      if |s.channel| < s.capacity then t.(channel := s.channel + [s.pending[p]])
          else t.(writer := InHand(s.pending[p], false))
    case Receive =>
      s.(channel := s.channel[1..],
         writer := if s.writer.Idle? then InHand(s.channel[0], false) else DrainInHand(s.channel[0], false))
    case WriteOut =>
      s.(written := s.written + [s.writer.id],
         outputs := WriteToAll(s.outputs, s.log, s.writer.id),
         writer := if s.writer.InHand? then InHand(s.writer.id, true) else DrainInHand(s.writer.id, true))
    case Done =>
      s.(count := s.count - 1,
         writer := if s.writer.InHand? then Idle else Draining,
         flushers := if s.count == 1 then Freed(s.flushers) else s.flushers)
    case CallFlush(f) => s.(flushers := s.flushers[f := Signalling(|s.log|)])
    case Signal(f) => s.(flushers := s.flushers[f := Signalled(s.flushers[f].mark)], writer := Draining)
    case Stop => s.(writer := Gone)
    case Wait(f) =>
      var mark := s.flushers[f].mark;
      s.(flushers := s.flushers[f := if s.count == 0 then Returned(mark) else Waiting(mark)])
    case Wake(f) =>
      if s.count == 0 then s.(flushers := s.flushers[f := Returned(s.flushers[f].mark)]) else s.(crashed := true)
  }

  /** A run; None when a step is taken that the state does not allow. */
  function Run(s: State, steps: seq<Step>): Option<State>
    decreases |steps|
  {
    if steps == [] then Some(s)
    else if Enabled(s, steps[0]) then Run(Next(s, steps[0]), steps[1..]) else None
  }

  function Fresh(capacity: nat, levels: seq<int>): State {
    var outputs := seq(|levels|, i requires 0 <= i < |levels| => Output(levels[i], []));
    State(capacity, [], 0, map[], [], [], Idle, [], outputs, map[], false)
  }

  // ---------------------------------------------------------------- the invariant

  predicate Distinct(ids: seq<nat>) { forall i, j :: 0 <= i < j < |ids| ==> ids[i] != ids[j] }

  ghost predicate IsPending(s: State, id: nat) { exists p :: p in s.pending && s.pending[p] == id }

  /** Each announced message is at one place: with its producer, or sent; and sent at most once. */
  ghost predicate Accounted(s: State) {
    && (forall id :: 0 <= id < |s.log| ==> id in s.sent || IsPending(s, id))
    && (forall id :: id in s.sent ==> id < |s.log|)
    && (forall p :: p in s.pending ==> s.pending[p] < |s.log| && s.pending[p] !in s.sent)
    && (forall p, q :: p in s.pending && q in s.pending && s.pending[p] == s.pending[q] ==> p == q)
    && Distinct(s.sent)
  }

  /** First in, first out: what was sent is what was written, then what is in hand, then what is queued. */
  predicate InOrder(s: State) { s.sent == s.written + Unwritten(s.writer) + s.channel }

  predicate Bounded(s: State) { |s.channel| <= s.capacity }

  /** The wait count: messages announced and not sent, queued, and in hand. */
  predicate Counted(s: State) { s.count == |s.pending| + |s.channel| + (if Holds(s.writer) then 1 else 0) }

  /** Of the messages written, those an output's level lets through. */
  function Kept(written: seq<nat>, log: seq<Message>, level: int): seq<nat> {
    if written == [] then []
    else Kept(written[..|written| - 1], log, level)
         + (var id := written[|written| - 1]; if id < |log| && level <= log[id].level then [id] else [])
  }

  ghost predicate Filtered(s: State) {
    forall j :: 0 <= j < |s.outputs| ==> s.outputs[j].lines == Kept(s.written, s.log, s.outputs[j].level)
  }

  /**
   * A flush that is released or has returned saw everything written that was announced before it, and one that is
   * blocked has something to wait for.
   */
  ghost predicate Flushed(s: State) {
    forall f :: f in s.flushers ==>
      && s.flushers[f].mark <= |s.log|
      && (s.flushers[f].Waiting? ==> s.count > 0)
      && (s.flushers[f].Released? || s.flushers[f].Returned? ==>
            forall id :: 0 <= id < s.flushers[f].mark ==> id in s.written)
  }

  ghost predicate Inv(s: State) { Bounded(s) && Accounted(s) && InOrder(s) && Counted(s) && Filtered(s) && Flushed(s) }

  lemma AccountedAnnounce(s: State, p: int, msg: Message)
    requires Accounted(s) && Enabled(s, Announce(p, msg))
    ensures Accounted(Next(s, Announce(p, msg)))
  {
    var t := Next(s, Announce(p, msg));
    forall id | 0 <= id < |t.log|
      ensures id in t.sent || IsPending(t, id)
    {
      if id == |s.log| {
        assert t.pending[p] == id;
      } else if id !in s.sent {
        var q :| q in s.pending && s.pending[q] == id;
        assert t.pending[q] == id;
      }
    }
  }

  lemma AccountedSend(s: State, p: int)
    requires Accounted(s) && Enabled(s, Send(p))
    ensures Accounted(Next(s, Send(p)))
  {
    var t := Next(s, Send(p));
    forall id | 0 <= id < |t.log|
      ensures id in t.sent || IsPending(t, id)
    {
      if id !in s.sent {
        var q :| q in s.pending && s.pending[q] == id;
        assert q == p || t.pending[q] == id;
      }
    }
  }

  lemma SameAccounts(s: State, t: State)
    requires Accounted(s) && t.pending == s.pending && t.sent == s.sent && t.log == s.log
    ensures Accounted(t)
  {
    assert forall id :: IsPending(s, id) ==> IsPending(t, id);
  }

  lemma AccountedKept(s: State, step: Step)
    requires Accounted(s) && Enabled(s, step)
    ensures Accounted(Next(s, step))
  {
    if step.Announce? {
      AccountedAnnounce(s, step.producer, step.msg);
    } else if step.Send? {
      AccountedSend(s, step.producer);
    } else {
      SameAccounts(s, Next(s, step));
    }
    hide Accounted;
  }

  lemma InOrderKept(s: State, step: Step)
    requires Bounded(s) && InOrder(s) && Enabled(s, step)
    ensures Bounded(Next(s, step)) && InOrder(Next(s, step))
  {
    var t := Next(s, step);
    match step {
      case Send(p) =>
        assert t.sent == s.written + Unwritten(s.writer) + (s.channel + [s.pending[p]]);
      case Receive =>
        assert s.channel == [s.channel[0]] + s.channel[1..];
      case _ =>
    }
  }

  lemma OneMore(m: map<int, nat>, p: int, id: nat)
    requires p !in m
    ensures |m[p := id]| == |m| + 1
  {
    assert m[p := id].Keys == m.Keys + {p};
  }

  lemma OneLess(m: map<int, nat>, p: int)
    requires p in m
    ensures |m - {p}| == |m| - 1
  {
    assert m.Keys == (m - {p}).Keys + {p};
  }

  lemma CountedKept(s: State, step: Step)
    requires Bounded(s) && Counted(s) && Enabled(s, step)
    ensures Counted(Next(s, step))
  {
    if step.Announce? {
      OneMore(s.pending, step.producer, |s.log|);
    } else if step.Send? {
      OneLess(s.pending, step.producer);
    }
  }

  /** Later announcements do not change what an output keeps. */
  lemma {:induction false} KeptStays(written: seq<nat>, log: seq<Message>, msg: Message, level: int)
    requires forall i :: 0 <= i < |written| ==> written[i] < |log|
    ensures Kept(written, log + [msg], level) == Kept(written, log, level)
  {
    if written != [] {
      assert written[|written| - 1] in written;
      KeptStays(written[..|written| - 1], log, msg, level);
    }
  }

  lemma WrittenKnown(s: State)
    requires Accounted(s) && InOrder(s)
    ensures forall i :: 0 <= i < |s.written| ==> s.written[i] < |s.log|
  {
    assert forall i :: 0 <= i < |s.written| ==> s.sent[i] == s.written[i];
    assert forall i :: 0 <= i < |s.sent| ==> s.sent[i] in s.sent;
  }

  lemma FilteredKept(s: State, step: Step)
    requires Accounted(s) && InOrder(s) && Filtered(s) && Enabled(s, step)
    ensures Filtered(Next(s, step))
  {
    var t := Next(s, step);
    WrittenKnown(s);
    hide Accounted, InOrder;
    match step {
      case Announce(p, msg) =>
        forall j | 0 <= j < |t.outputs|
          ensures t.outputs[j].lines == Kept(t.written, t.log, t.outputs[j].level)
        {
          KeptStays(s.written, s.log, msg, s.outputs[j].level);
        }
      case WriteOut =>
        assert t.written[..|t.written| - 1] == s.written;
      case _ =>
    }
  }

  /** With a wait count of zero nothing is on its way. */
  lemma NothingOnItsWay(s: State)
    requires Accounted(s) && InOrder(s) && Counted(s) && s.count == 0
    ensures s.written == s.sent && s.channel == [] && s.pending == map[] && !Holds(s.writer)
    ensures forall id :: 0 <= id < |s.log| ==> id in s.written
  {
    assert |s.pending| == 0;
    assert s.pending.Keys == {};
    forall id | 0 <= id < |s.log|
      ensures id in s.sent
    {
      assert !IsPending(s, id);
    }
  }

  /** Counts are not negative, and at zero everything announced is written. */
  lemma NoneLeft(s: State)
    requires Accounted(s) && InOrder(s) && Counted(s)
    ensures s.count >= 0 && (s.count == 0 ==> forall id :: 0 <= id < |s.log| ==> id in s.written)
  {
    if s.count == 0 {
      NothingOnItsWay(s);
    }
  }

  lemma NoneLeftAfter(s: State, step: Step)
    requires Inv(s) && Enabled(s, step)
    ensures var t := Next(s, step);
            && s.count >= 0 && s.written <= t.written && s.log <= t.log
            && (s.count == 0 ==> forall id :: 0 <= id < |s.log| ==> id in s.written)
            && (t.count == 0 ==> forall id :: 0 <= id < |t.log| ==> id in t.written)
  {
    AccountedKept(s, step);
    InOrderKept(s, step);
    CountedKept(s, step);
    NoneLeft(s);
    NoneLeft(Next(s, step));
    hide Accounted, InOrder, Counted, Filtered, Flushed, WriteToAll, Freed;
  }

  lemma FlushedKept(s: State, step: Step)
    requires Inv(s) && Enabled(s, step)
    ensures Flushed(Next(s, step))
  {
    hide Accounted, InOrder, Counted, Filtered, WriteToAll;
    NoneLeftAfter(s, step);
    assert forall id :: id in s.written ==> id in Next(s, step).written;
  }

  lemma InvKept(s: State, step: Step)
    requires Inv(s) && Enabled(s, step)
    ensures Inv(Next(s, step))
  {
    AccountedKept(s, step);
    InOrderKept(s, step);
    CountedKept(s, step);
    FilteredKept(s, step);
    FlushedKept(s, step);
    hide Accounted, InOrder, Counted, Filtered, Flushed;
  }

  lemma FreshInv(capacity: nat, levels: seq<int>)
    ensures Inv(Fresh(capacity, levels))
  {
  }

  /** In every interleaving. */
  lemma {:induction false} InvHolds(s: State, steps: seq<Step>)
    requires Inv(s) && Run(s, steps).Some?
    ensures Inv(Run(s, steps).value)
    decreases |steps|
  {
    hide Inv;
    if steps != [] {
      InvKept(s, steps[0]);
      InvHolds(Next(s, steps[0]), steps[1..]);
    }
  }

  // ---------------------------------------------------------------- what a flush promises

  predicate HasReturned(s: State, f: int) { f in s.flushers && s.flushers[f].Returned? }

  /**
   * Flush loses nothing: in any run from the start, a flush that was called at some point and has returned finds every
   * message announced before the call written, each once, in the order of the channel, and on exactly those outputs
   * whose level lets it through.
   */
  lemma FlushLosesNothing(capacity: nat, levels: seq<int>, before: seq<Step>, f: int, after: seq<Step>)
    requires Run(Fresh(capacity, levels), before).Some?
    requires Enabled(Run(Fresh(capacity, levels), before).value, CallFlush(f))
    requires var called := Next(Run(Fresh(capacity, levels), before).value, CallFlush(f));
             Run(called, after).Some? && HasReturned(Run(called, after).value, f)
    ensures var called := Next(Run(Fresh(capacity, levels), before).value, CallFlush(f));
            var s := Run(called, after).value;
            && (forall id :: 0 <= id < |called.log| ==> id in s.written)
            && Distinct(s.written) && s.written <= s.sent && called.log <= s.log
            && forall j, id :: 0 <= j < |s.outputs| && 0 <= id < |called.log| ==>
                 (id in s.outputs[j].lines <==> s.outputs[j].level <= called.log[id].level)
  {
    FreshInv(capacity, levels);
    InvHolds(Fresh(capacity, levels), before);
    var s0 := Run(Fresh(capacity, levels), before).value;
    var called := Next(s0, CallFlush(f));
    InvKept(s0, CallFlush(f));
    InvHolds(called, after);
    MarkStays(called, f, after);
    hide Run, Fresh;
    var s := Run(called, after).value;
    ReturnedSees(s, f);
    forall j, id | 0 <= j < |s.outputs| && 0 <= id < |called.log|
      ensures id in s.outputs[j].lines <==> s.outputs[j].level <= called.log[id].level
    {
      KeptHas(s.written, s.log, s.outputs[j].level, id);
    }
  }

  lemma ReturnedSees(s: State, f: int)
    requires Inv(s) && HasReturned(s, f)
    ensures s.flushers[f].mark <= |s.log| && forall id :: 0 <= id < s.flushers[f].mark ==> id in s.written
    ensures s.written <= s.sent && Distinct(s.written)
    ensures forall j :: 0 <= j < |s.outputs| ==> s.outputs[j].lines == Kept(s.written, s.log, s.outputs[j].level)
  {
    assert s.sent == s.written + (Unwritten(s.writer) + s.channel);
    forall i, j | 0 <= i < j < |s.written|
      ensures s.written[i] != s.written[j]
    {
      assert s.sent[i] == s.written[i] && s.sent[j] == s.written[j];
    }
  }

  lemma {:induction false} KeptHas(written: seq<nat>, log: seq<Message>, level: int, id: nat)
    requires id < |log|
    ensures id in Kept(written, log, level) <==> id in written && level <= log[id].level
  {
    if written != [] {
      assert written == written[..|written| - 1] + [written[|written| - 1]];
      KeptHas(written[..|written| - 1], log, level, id);
    }
  }

  lemma {:induction false} MarkStays(s: State, f: int, steps: seq<Step>)
    requires f in s.flushers && Run(s, steps).Some?
    ensures f in Run(s, steps).value.flushers && Run(s, steps).value.flushers[f].mark == s.flushers[f].mark
    ensures s.log <= Run(s, steps).value.log
    decreases |steps|
  {
    if steps != [] {
      MarkStays(Next(s, steps[0]), f, steps[1..]);
    }
  }

  // ---------------------------------------------------------------- when a flush does not return

  /** The writer ends with the first flush. With messages still on their way then, no flush ever returns afterwards. */
  lemma {:induction false} StuckForever(s: State, steps: seq<Step>)
    requires Inv(s) && s.writer.Gone? && s.count > 0 && Run(s, steps).Some?
    ensures var t := Run(s, steps).value;
            && t.writer.Gone? && t.count > 0 && t.written == s.written
            && forall f :: HasReturned(t, f) ==> HasReturned(s, f)
    decreases |steps|
  {
    hide Inv;
    if steps != [] {
      InvKept(s, steps[0]);
      StuckForever(Next(s, steps[0]), steps[1..]);
    }
  }

  predicate LeadsToReturn(s: State, f: int, steps: seq<Step>) {
    Run(s, steps).Some? && HasReturned(Run(s, steps).value, f)
  }

  predicate HasSignalled(s: State, f: int) {
    f in s.flushers && (s.flushers[f].Signalled? || s.flushers[f].Waiting? || s.flushers[f].Released?)
  }

  /** After the writer has ended, a flush whose signal was taken can still return exactly when nothing is on its way. */
  lemma ReturnsIffDone(s: State, f: int)
    requires Inv(s) && !s.crashed && s.writer.Gone? && HasSignalled(s, f)
    ensures (exists steps :: LeadsToReturn(s, f, steps)) <==> s.pending == map[] && s.channel == []
  {
    if s.count == 0 {
      NothingOnItsWay(s);
      var last := if s.flushers[f].Signalled? then Wait(f) else Wake(f);
      OneStep(s, last);
      assert LeadsToReturn(s, f, [last]);
    } else {
      assert s.count == |s.pending| + |s.channel|;
      assert !(s.pending == map[] && s.channel == []);
      forall steps
        ensures !LeadsToReturn(s, f, steps)
      {
        if Run(s, steps).Some? {
          StuckForever(s, steps);
        }
      }
    }
  }

  lemma OneStep(s: State, step: Step)
    requires Enabled(s, step)
    ensures Run(s, [step]) == Some(Next(s, step))
  {
    assert [step][1..] == [];
    assert Run(Next(s, step), []) == Some(Next(s, step));
  }

  /** A second flush: once the writer has ended its signal is never received. */
  lemma {:induction false} SecondFlushBlocks(s: State, f: int, steps: seq<Step>)
    requires s.writer.Gone? && f in s.flushers && s.flushers[f].Signalling? && Run(s, steps).Some?
    ensures f in Run(s, steps).value.flushers && Run(s, steps).value.flushers[f].Signalling?
    decreases |steps|
  {
    if steps != [] {
      SecondFlushBlocks(Next(s, steps[0]), f, steps[1..]);
    }
  }

  /** One late producer is enough: announced before the flush, sent after the writer has ended. */
  lemma LateSendIsStuck(capacity: nat, levels: seq<int>, msg: Message)
    requires capacity > 0
    ensures var steps := [Announce(0, msg), CallFlush(0), Signal(0), Stop, Wait(0)] + [Send(0)];
            var r := Run(Fresh(capacity, levels), steps);
            r.Some? && r.value.writer.Gone? && r.value.count == 1 && r.value.channel == [0]
            && r.value.flushers == map[0 := Waiting(1)]
  {
    var s := Fresh(capacity, levels);
    var first := [Announce(0, msg), CallFlush(0), Signal(0), Stop, Wait(0)];
    Unrolled(s, first);
    RunSplits(s, first, [Send(0)]);
    OneStep(Run(s, first).value, Send(0));
  }

  /** Five steps at once. */
  lemma Unrolled(s: State, steps: seq<Step>)
    requires |steps| == 5
    requires Enabled(s, steps[0]) && Enabled(Next(s, steps[0]), steps[1])
    requires Enabled(Next(Next(s, steps[0]), steps[1]), steps[2])
    requires Enabled(Next(Next(Next(s, steps[0]), steps[1]), steps[2]), steps[3])
    requires Enabled(Next(Next(Next(Next(s, steps[0]), steps[1]), steps[2]), steps[3]), steps[4])
    ensures Run(s, steps) == Some(Next(Next(Next(Next(Next(s, steps[0]), steps[1]), steps[2]), steps[3]), steps[4]))
  {
    hide Enabled, Next;
    var s1 := Next(s, steps[0]);
    var s2 := Next(s1, steps[1]);
    var s3 := Next(s2, steps[2]);
    var s4 := Next(s3, steps[3]);
    OneStep(s4, steps[4]);
    assert steps[4..] == [steps[4]];
    assert steps[3..][1..] == steps[4..] && steps[2..][1..] == steps[3..] && steps[1..][1..] == steps[2..];
    assert Run(s3, steps[3..]) == Run(s4, steps[4..]);
    assert Run(s2, steps[2..]) == Run(s3, steps[3..]);
    assert Run(s1, steps[1..]) == Run(s2, steps[2..]);
  }

  // ---------------------------------------------------------------- when the wait group panics

  /** Some flush has been released and has not run since. */
  ghost predicate SomeReleased(s: State) { exists f :: f in s.flushers && s.flushers[f].Released? }

  /** Nobody announces a message while a released flush has not run yet. */
  ghost predicate Quiet(s: State, steps: seq<Step>)
    requires Run(s, steps).Some?
    decreases |steps|
  {
    steps == [] || ((steps[0].Announce? ==> !SomeReleased(s)) && Quiet(Next(s, steps[0]), steps[1..]))
  }

  /** While a flush is released the count stays at zero. */
  ghost predicate Settled(s: State) { SomeReleased(s) ==> s.count == 0 }

  lemma SettledKept(s: State, step: Step)
    requires Inv(s) && Settled(s) && !s.crashed && Enabled(s, step) && (step.Announce? ==> !SomeReleased(s))
    ensures Settled(Next(s, step)) && !Next(s, step).crashed
  {
    var t := Next(s, step);
    hide Accounted, InOrder, Filtered, Flushed;
    if f :| f in t.flushers && t.flushers[f].Released? {
      assert f in s.flushers;
      assert s.flushers[f].Released? || (step.Done? && s.count == 1);
    }
  }

  /** A run in which nobody announces a message while a flush is waking up does not panic. */
  lemma {:induction false} QuietRunsDoNotCrash(s: State, steps: seq<Step>)
    requires Inv(s) && Settled(s) && !s.crashed && Run(s, steps).Some? && Quiet(s, steps)
    ensures !Run(s, steps).value.crashed
    decreases |steps|
  {
    if steps != [] {
      InvKept(s, steps[0]);
      SettledKept(s, steps[0]);
      hide Inv, Settled;
      QuietRunsDoNotCrash(Next(s, steps[0]), steps[1..]);
    }
  }

  /** One more message is enough to make a flush panic that is released. */
  lemma AnnouncingCrashes(s: State, f: int, producer: int, msg: Message)
    requires Inv(s) && !s.crashed && f in s.flushers && s.flushers[f].Released? && producer !in s.pending
    ensures var r := Run(s, [Announce(producer, msg)] + [Wake(f)]);
            r.Some? && r.value.crashed
  {
    assert s.count >= 0;
    var t := Next(s, Announce(producer, msg));
    OneStep(s, Announce(producer, msg));
    OneStep(t, Wake(f));
    RunSplits(s, [Announce(producer, msg)], [Wake(f)]);
  }

  /** A flush waits for the one message there is, which is in the channel. */
  function LastQueued(capacity: nat, levels: seq<int>, msg: Message): State {
    Fresh(capacity, levels).(log := [msg], count := 1, sent := [0], channel := [0], writer := Draining,
                             flushers := map[0 := Waiting(1)])
  }

  lemma QueuesLast(capacity: nat, levels: seq<int>, msg: Message)
    requires capacity > 0
    ensures Run(Fresh(capacity, levels), [Announce(0, msg), CallFlush(0), Signal(0), Wait(0), Send(0)])
         == Some(LastQueued(capacity, levels, msg))
  {
    var s, none: map<int, Flusher> := Fresh(capacity, levels), map[];
    Unrolled(s, [Announce(0, msg), CallFlush(0), Signal(0), Wait(0), Send(0)]);
    assert map[0 := 0] - {0} == map[];
    var t := s.(log := [msg], count := 1, pending := map[0 := 0]);
    assert Next(s, Announce(0, msg)) == t;
    assert none[0 := Signalling(1)][0 := Signalled(1)] == map[0 := Signalled(1)];
    var u := t.(flushers := map[0 := Signalled(1)], writer := Draining);
    assert Next(Next(t, CallFlush(0)), Signal(0)) == u;
    assert map[0 := Signalled(1)][0 := Waiting(1)] == map[0 := Waiting(1)];
    assert Next(u, Wait(0)) == u.(flushers := map[0 := Waiting(1)]);
    assert Next(Next(u, Wait(0)), Send(0)) == LastQueued(capacity, levels, msg);
  }

  lemma LastIsReused(capacity: nat, levels: seq<int>, msg: Message)
    ensures var r := Run(LastQueued(capacity, levels, msg), [Receive, WriteOut, Done, Announce(1, msg), Wake(0)]);
            r.Some? && r.value.crashed
  {
    Unrolled(LastQueued(capacity, levels, msg), [Receive, WriteOut, Done, Announce(1, msg), Wake(0)]);
    hide Run, WriteToAll;
  }

  /** And it comes to that from the start: the writer drains the last message, and the next is announced at once. */
  lemma ReusedWaitGroup(capacity: nat, levels: seq<int>, msg: Message)
    requires capacity > 0
    ensures var steps := [Announce(0, msg), CallFlush(0), Signal(0), Wait(0), Send(0)]
                         + [Receive, WriteOut, Done, Announce(1, msg), Wake(0)];
            var r := Run(Fresh(capacity, levels), steps);
            r.Some? && r.value.crashed
  {
    QueuesLast(capacity, levels, msg);
    LastIsReused(capacity, levels, msg);
    RunSplits(Fresh(capacity, levels), [Announce(0, msg), CallFlush(0), Signal(0), Wait(0), Send(0)],
              [Receive, WriteOut, Done, Announce(1, msg), Wake(0)]);
    hide Run, Fresh, LastQueued;
  }

  // ---------------------------------------------------------------- the writer's code

  /** The three steps that take one message off the channel. */
  const ONE_MESSAGE := [Receive, WriteOut, Done]

  /** `n` messages drained by the writer alone. */
  function Drain(n: nat): seq<Step> { if n == 0 then [] else ONE_MESSAGE + Drain(n - 1) }

  lemma {:induction false} RunSplits(s: State, a: seq<Step>, b: seq<Step>)
    ensures Run(s, a + b) == match Run(s, a) case None => None case Some(t) => Run(t, b)
    decreases |a|
  {
    if a == [] {
      assert a + b == b;
    } else {
      assert (a + b)[1..] == a[1..] + b;
      if Enabled(s, a[0]) {
        RunSplits(Next(s, a[0]), a[1..], b);
      }
    }
  }

  lemma {:induction false} DrainOneMore(n: nat)
    ensures Drain(n + 1) == Drain(n) + ONE_MESSAGE
  {
    if n > 0 {
      DrainOneMore(n - 1);
      assert ONE_MESSAGE + (Drain(n - 1) + ONE_MESSAGE) == (ONE_MESSAGE + Drain(n - 1)) + ONE_MESSAGE;
    } else {
      assert Drain(0) == [];
      assert ONE_MESSAGE + [] == [] + ONE_MESSAGE;
    }
  }

  /** The state with the first message of the channel written and done. */
  function TakenOff(s: State): State
    requires s.channel != [] && s.channel[0] < |s.log|
  {
    var id := s.channel[0];
    s.(channel := s.channel[1..], written := s.written + [id], outputs := WriteToAll(s.outputs, s.log, id),
       count := s.count - 1, flushers := if s.count == 1 then Freed(s.flushers) else s.flushers)
  }

  lemma TakesOff(s: State)
    requires !s.crashed && s.writer.Draining? && s.channel != [] && s.channel[0] < |s.log|
    ensures Run(s, ONE_MESSAGE) == Some(TakenOff(s))
  {
    var s1 := Next(s, Receive);
    var s2 := Next(s1, WriteOut);
    assert ONE_MESSAGE[1..] == [WriteOut, Done] && [WriteOut, Done][1..] == [Done] && [Done][1..] == [];
    assert Run(Next(s2, Done), []) == Some(Next(s2, Done));
    assert Run(s2, [Done]) == Some(Next(s2, Done));
    assert Run(s1, [WriteOut, Done]) == Some(Next(s2, Done));
  }

  lemma DrainNext(s: State, n: nat, t: State)
    requires Run(s, Drain(n)) == Some(t)
    requires !t.crashed && t.writer.Draining? && t.channel != [] && t.channel[0] < |t.log|
    ensures Run(s, Drain(n + 1)) == Some(TakenOff(t))
  {
    hide Run, TakenOff;
    DrainOneMore(n);
    RunSplits(s, Drain(n), ONE_MESSAGE);
    TakesOff(t);
  }

  /** The writer's fields of a Logger; the rest of the state is that of the goroutines around it. */
  class Logger {
    var msgChan: seq<nat>
    var outputs: seq<Output>
    var wg: int
    ghost var around: State

    /** The state as the writer sees it while it is draining. */
    ghost function Now(): State
      reads this
    {
      around.(channel := msgChan, outputs := outputs, count := wg, writer := Draining, crashed := false)
    }

    /** writeToOutputs. */
    method writeToOutputs(id: nat, log: seq<Message>)
      requires id < |log|
      modifies this`outputs
      ensures outputs == WriteToAll(old(outputs), log, id)
    {
      for i := 0 to |outputs|
        invariant |outputs| == |old(outputs)|
        invariant forall j :: 0 <= j < |outputs| ==>
                    outputs[j] == if j < i then WriteTo(old(outputs[j]), log, id) else old(outputs[j])
      {
        if outputs[i].level <= log[id].level {
          outputs := outputs[i := outputs[i].(lines := outputs[i].lines + [id])];
        }
      }
    }

    /**
     * flush's loop: nothing else happening meanwhile, it is the run that drains the channel, message by message, and
     * it ends with the channel empty.
     */
    method flush(log: seq<Message>) returns (ghost n: nat)
      requires log == around.log && forall i :: 0 <= i < |msgChan| ==> msgChan[i] < |log|
      modifies this
      ensures n == |old(msgChan)| && Run(old(Now()), Drain(n)) == Some(Now())
      ensures msgChan == [] && wg == old(wg) - |old(msgChan)|
    {
      n := 0;
      ghost var start := Now();
      while |msgChan| > 0
        invariant around.log == log && n + |msgChan| == |old(msgChan)| && wg == old(wg) - n
        invariant forall i :: 0 <= i < |msgChan| ==> msgChan[i] < |log|
        invariant Run(start, Drain(n)) == Some(Now())
      {
        DrainNext(start, n, Now());
        hide Run, Drain;
        var msg := msgChan[0];
        msgChan := msgChan[1..];
        writeToOutputs(msg, log);
        wg := wg - 1;
        around := around.(written := around.written + [msg],
                          flushers := if wg == 0 then Freed(around.flushers) else around.flushers);
        n := n + 1;
      }
    }
  }
}
