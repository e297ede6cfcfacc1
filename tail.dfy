/**
 * subscribe_to: the tailing read of a stream partition. It polls the events
 * endpoint, waits on "OffsetOutOfBounds", and resumes one past the last
 * offset it yielded. The service's replies are supplied in order; the read
 * runs for as many polls as there are replies.
 */
module Tailing {
  import opened Types
  import opened Errors
  import opened Traces

  const OffsetOutOfBounds := "OffsetOutOfBounds"

  /**
   * The state subscribe_to carries between polls: the "from" parameter of
   * the next request, and the last offset yielded (`None` while unbound).
   */
  datatype Cursor = Cursor(from: Option<int>, last: Option<int>)

  /** Once an offset has been yielded, the next request asks for the one after it. */
  predicate Resuming(c: Cursor)
  {
    c.last.Some? ==> c.from == Some(c.last.value + 1)
  }

  /** The poll request: "from" is sent exactly when the cursor has one. */
  function PollRequest(path: string, from: Option<int>): Request
  {
    Request(path, Params(None, from, None))
  }

  /** What one poll reply leads to. */
  datatype PollOutcome =
    | Retry                                  // wait, then poll again unchanged
    | Batch(events: seq<Event>, next: Cursor) // yield the events, then poll from `next`
    | Abort(fault: Fault)                    // the subscription ends with an exception

  predicate IsOutOfBounds(reply: Response)
  {
    reply.status == 400 && reply.body.errorType == Some(OffsetOutOfBounds)
  }

  /** One poll of subscribe_to, from cursor `c`. */
  function Poll(c: Cursor, reply: Response): (p: PollOutcome)
    ensures p.Retry? <==> IsOutOfBounds(reply)
    ensures reply.status > 400 ==> p == Abort(HttpError(reply.status))
    ensures !IsOutOfBounds(reply) && HandleErrors(reply).Fail? ==> p == Abort(HandleErrors(reply).fault)
    ensures reply.status < 400 && reply.body.events.None? ==> p == Abort(KeyMissing("events"))
    ensures p.Batch? ==> reply.status < 400 && reply.body.events == Some(p.events)
    ensures p.Abort? ==>
              reply.status >= 400 || reply.body.events.None? || (reply.body.events == Some([]) && c.last.None?)
    ensures p.Batch? && p.events != [] ==>
              var k := p.events[|p.events| - 1].offset;
              p.next == Cursor(Some(k + 1), Some(k))
    ensures reply.status < 400 && reply.body.events == Some([]) && c.last.Some? ==>
              p == Batch([], Cursor(Some(c.last.value + 1), c.last))
    ensures p == Abort(UnboundOffset) <==> reply.status < 400 && reply.body.events == Some([]) && c.last.None?
  {
    if IsOutOfBounds(reply) then Retry
    else
      match HandleErrors(reply)
      case Fail(f) => Abort(f)
      case Pass =>
        match reply.body.events
        case None => Abort(KeyMissing("events"))
        case Some(evs) =>
          var last := if evs == [] then c.last else Some(evs[|evs| - 1].offset);
          match last
          case None => Abort(UnboundOffset)
          case Some(k) => Batch(evs, Cursor(Some(k + 1), last))
  }

  /** The tailing read from cursor `c`, polling `path` and answered by `replies`. */
  function Tail(path: string, period: nat, c: Cursor, replies: seq<Response>): Run
    decreases |replies|
  {
    if replies == [] then Run([], Exhausted)
    else
      var sent := [Get(PollRequest(path, c.from))];
      match Poll(c, replies[0])
      case Retry =>
        var rest := Tail(path, period, c, replies[1..]);
        Run(sent + [Sleep(period)] + rest.trace, rest.ending)
      case Abort(f) => Run(sent, Raised(f))
      case Batch(evs, next) =>
        var rest := Tail(path, period, next, replies[1..]);
        Run(sent + Emits(evs) + rest.trace, rest.ending)
  }

  /** A poll that ends the read, in the cases subscribe_to checks, with the trace built so far. */
  lemma TailStopsHere(whole: Run, before: seq<Action>, path: string, period: nat, c: Cursor,
                      remaining: seq<Response>, trace: seq<Action>, f: Fault)
    requires remaining != [] && !IsOutOfBounds(remaining[0])
    requires var r := remaining[0];
      || (HandleErrors(r).Fail? && f == HandleErrors(r).fault)
      || (HandleErrors(r).Pass? && r.body.events.None? && f == KeyMissing("events"))
      || (HandleErrors(r).Pass? && r.body.events == Some([]) && c.last.None? && f == UnboundOffset)
    requires whole.trace == before + Tail(path, period, c, remaining).trace
    requires whole.ending == Tail(path, period, c, remaining).ending
    requires trace == before + [Get(PollRequest(path, c.from))]
    ensures whole == Run(trace, Raised(f))
  {
    assert Poll(c, remaining[0]) == Abort(f);
  }

  /** A poll after which the read goes on from `next`, having appended `actions`. */
  lemma TailGoesOn(whole: Run, before: seq<Action>, path: string, period: nat, c: Cursor, next: Cursor,
                   remaining: seq<Response>, actions: seq<Action>, trace: seq<Action>)
    requires remaining != []
    requires var p := Poll(c, remaining[0]);
      || (p.Retry? && next == c && actions == [Sleep(period)])
      || (p.Batch? && p.next == next && actions == Emits(p.events))
    requires whole.trace == before + Tail(path, period, c, remaining).trace
    requires whole.ending == Tail(path, period, c, remaining).ending
    requires trace == before + ([Get(PollRequest(path, c.from))] + actions)
    ensures whole.trace == trace + Tail(path, period, next, remaining[1..]).trace
    ensures whole.ending == Tail(path, period, next, remaining[1..]).ending
  {
    var rest := Tail(path, period, next, remaining[1..]);
    var head := [Get(PollRequest(path, c.from))] + actions;
    assert Tail(path, period, c, remaining) == Run(head + rest.trace, rest.ending);
    assert before + (head + rest.trace) == (before + head) + rest.trace;
  }

  /** A successful poll whose batch leaves `last` as the last offset yielded. */
  lemma TailBatchHere(whole: Run, before: seq<Action>, path: string, period: nat, c: Cursor,
                      remaining: seq<Response>, trace: seq<Action>, last: int)
    requires remaining != [] && !IsOutOfBounds(remaining[0]) && HandleErrors(remaining[0]).Pass?
    requires remaining[0].body.events.Some?
    requires var evs := remaining[0].body.events.value;
      Some(last) == if evs == [] then c.last else Some(evs[|evs| - 1].offset)
    requires whole.trace == before + Tail(path, period, c, remaining).trace
    requires whole.ending == Tail(path, period, c, remaining).ending
    requires trace == before + [Get(PollRequest(path, c.from))] + Emits(remaining[0].body.events.value)
    ensures var next := Cursor(Some(last + 1), Some(last));
      whole.trace == trace + Tail(path, period, next, remaining[1..]).trace &&
      whole.ending == Tail(path, period, next, remaining[1..]).ending
  {
    var evs := remaining[0].body.events.value;
    var next := Cursor(Some(last + 1), Some(last));
    assert Poll(c, remaining[0]) == Batch(evs, next);
    TailGoesOn(whole, before, path, period, c, next, remaining, Emits(evs), trace);
  }

  /**
   * The inner loop of subscribe_to: yield each event of a batch in order,
   * recording its offset as the last one yielded.
   */
  method YieldBatch(trace: seq<Action>, evs: seq<Event>, last: Option<int>)
    returns (trace': seq<Action>, last': Option<int>)
    ensures trace' == trace + Emits(evs)
    ensures last' == if evs == [] then last else Some(evs[|evs| - 1].offset)
  {
    trace', last' := trace, last;
    for k := 0 to |evs|
      invariant trace' == trace + Emits(evs[..k])
      invariant last' == if k == 0 then last else Some(evs[k - 1].offset)
    {
      assert evs[..k + 1][..k] == evs[..k];
      last' := Some(evs[k].offset);
      trace' := trace' + [Emit(evs[k])];
    }
    assert evs[..|evs|] == evs;
  }

  /** subscribe_to, run for one poll per reply in `replies`. */
  method SubscribeTo(stream: string, partition: string, from: Option<int>, refreshPeriod: nat,
                     replies: seq<Response>)
    returns (trace: seq<Action>, ending: Ending)
    ensures Run(trace, ending) == Tail(EventsPath(stream, partition), refreshPeriod, Cursor(from, None), replies)
  {
    var path := EventsPath(stream, partition);
    ghost var whole := Tail(path, refreshPeriod, Cursor(from, None), replies);
    var params := Params(None, from, None);
    var lastOffset: Option<int> := None;
    var i := 0;
    trace := [];
    assert replies[0..] == replies;
    while i < |replies|
      invariant 0 <= i <= |replies|
      invariant params.matching.None? && params.to.None?
      invariant whole.trace == trace + Tail(path, refreshPeriod, Cursor(params.from, lastOffset), replies[i..]).trace
      invariant whole.ending == Tail(path, refreshPeriod, Cursor(params.from, lastOffset), replies[i..]).ending
    {
      ghost var before := trace;
      ghost var c := Cursor(params.from, lastOffset);
      ghost var remaining := replies[i..];
      var reply := replies[i];
      assert remaining[0] == reply && remaining[1..] == replies[i + 1..];
      trace := trace + [Get(Request(path, params))];
      i := i + 1;
      if IsOutOfBounds(reply) {
        trace := trace + [Sleep(refreshPeriod)];
        TailGoesOn(whole, before, path, refreshPeriod, c, c, remaining, [Sleep(refreshPeriod)], trace);
        continue;
      }
      var outcome := HandleErrors(reply);
      if outcome.Fail? {
        ending := Raised(outcome.fault);
        TailStopsHere(whole, before, path, refreshPeriod, c, remaining, trace, outcome.fault);
        return;
      }
      if reply.body.events.None? {
        ending := Raised(KeyMissing("events"));
        TailStopsHere(whole, before, path, refreshPeriod, c, remaining, trace, KeyMissing("events"));
        return;
      }
      var evs := reply.body.events.value;
      trace, lastOffset := YieldBatch(trace, evs, lastOffset);
      if lastOffset.None? {
        ending := Raised(UnboundOffset);
        assert evs == [] && Emits([]) == [];
        TailStopsHere(whole, before, path, refreshPeriod, c, remaining, trace, UnboundOffset);
        return;
      }
      params := params.(from := Some(lastOffset.value + 1));
      TailBatchHere(whole, before, path, refreshPeriod, c, remaining, trace, lastOffset.value);
    }
    ending := Exhausted;
    assert replies[i..] == [];
  }

  /** One poll of the read, case by case. */
  lemma TailCons(path: string, period: nat, c: Cursor, replies: seq<Response>)
    requires replies != []
    ensures var p := Poll(c, replies[0]);
      p.Retry? ==>
        var rest := Tail(path, period, c, replies[1..]);
        Tail(path, period, c, replies) ==
          Run([Get(PollRequest(path, c.from))] + [Sleep(period)] + rest.trace, rest.ending)
    ensures var p := Poll(c, replies[0]);
      p.Abort? ==> Tail(path, period, c, replies) == Run([Get(PollRequest(path, c.from))], Raised(p.fault))
    ensures var p := Poll(c, replies[0]);
      p.Batch? ==>
        var rest := Tail(path, period, p.next, replies[1..]);
        Tail(path, period, c, replies) ==
          Run([Get(PollRequest(path, c.from))] + Emits(p.events) + rest.trace, rest.ending)
  {
  }

  /**
   * The read never completes by itself: it stops only with a raised error,
   * right after the request whose reply raised it, and never because of an
   * "OffsetOutOfBounds" reply.
   */
  lemma {:induction false} TailEndsOnlyOnFatalReply(path: string, period: nat, c: Cursor, replies: seq<Response>)
    ensures Tail(path, period, c, replies).ending != Completed
    ensures var run := Tail(path, period, c, replies);
      run.ending.Raised? ==> |run.trace| > 0 && run.trace[|run.trace| - 1].Get?
    ensures var run := Tail(path, period, c, replies);
      run.ending.Raised? && run.ending.fault.ULogError? ==> run.ending.fault.errorType != OffsetOutOfBounds
    decreases |replies|
  {
    if replies != [] {
      TailCons(path, period, c, replies);
      match Poll(c, replies[0])
      case Retry =>
        TailEndsOnlyOnFatalReply(path, period, c, replies[1..]);
      case Abort(f) =>
      case Batch(evs, next) =>
        TailEndsOnlyOnFatalReply(path, period, next, replies[1..]);
    }
  }

  /**
   * The read sends no request without a reply and yields exactly the events
   * of the replies below 400 among those it has consumed, in the order
   * received; "OffsetOutOfBounds" replies yield nothing.
   */
  lemma {:induction false} TailYieldsServedBatches(path: string, period: nat, c: Cursor, replies: seq<Response>)
    ensures |Requests(Tail(path, period, c, replies).trace)| <= |replies|
    ensures Tail(path, period, c, replies).ending == Exhausted ==>
              |Requests(Tail(path, period, c, replies).trace)| == |replies|
    ensures Yielded(Tail(path, period, c, replies).trace) ==
              SuccessEvents(replies[..|Requests(Tail(path, period, c, replies).trace)|])
    decreases |replies|
  {
    if replies != [] {
      var q := PollRequest(path, c.from);
      var p := Poll(c, replies[0]);
      TailCons(path, period, c, replies);
      if p.Retry? {
        TailYieldsServedBatches(path, period, c, replies[1..]);
        assert [Sleep(period)][1..] == [];
        assert Requests([Sleep(period)]) == [] && Yielded([Sleep(period)]) == [];
        ServedStep(q, [Sleep(period)], Tail(path, period, c, replies[1..]), replies);
      } else if p.Abort? {
        assert [Get(q)] + [] + [] == [Get(q)];
        ServedStep(q, [], Run([], Raised(p.fault)), replies);
      } else {
        TailYieldsServedBatches(path, period, p.next, replies[1..]);
        EmitsYield(p.events);
        ServedStep(q, Emits(p.events), Tail(path, period, p.next, replies[1..]), replies);
      }
    }
  }

  /**
   * Every request of the read asks for one past the last offset yielded
   * before it, or for the initial "from" while nothing has been yielded
   * (see `Traces.ResumesAt`).
   */
  lemma {:induction false} TailResumes(path: string, period: nat, c: Cursor, replies: seq<Response>)
    requires Resuming(c)
    ensures Resumes(Tail(path, period, c, replies).trace, c.from)
    decreases |replies|
  {
    if replies != [] {
      var sent := [Get(PollRequest(path, c.from))];
      assert sent[1..] == [];
      assert Resumes(sent, c.from) && ResumePoint(sent, c.from) == c.from;
      TailCons(path, period, c, replies);
      match Poll(c, replies[0])
      case Retry =>
        var rest := Tail(path, period, c, replies[1..]);
        TailResumes(path, period, c, replies[1..]);
        assert [Sleep(period)][1..] == [];
        assert Resumes([Sleep(period)], c.from) && ResumePoint([Sleep(period)], c.from) == c.from;
        ResumesAppend(sent, [Sleep(period)], c.from);
        ResumePointAppend(sent, [Sleep(period)], c.from);
        ResumesAppend(sent + [Sleep(period)], rest.trace, c.from);
      case Abort(f) =>
      case Batch(evs, next) =>
        var rest := Tail(path, period, next, replies[1..]);
        TailResumes(path, period, next, replies[1..]);
        EmitsResume(evs, c.from);
        ResumesAppend(sent, Emits(evs), c.from);
        ResumePointAppend(sent, Emits(evs), c.from);
        ResumesAppend(sent + Emits(evs), rest.trace, c.from);
    }
  }

  /** `k` rounds of the same request followed by one wait. */
  function Waits(request: Request, period: nat, k: nat): seq<Action>
  {
    if k == 0 then [] else [Get(request), Sleep(period)] + Waits(request, period, k - 1)
  }

  /**
   * Each "OffsetOutOfBounds" reply costs one wait of the refresh period,
   * yields nothing, raises nothing, and leaves the next request unchanged.
   */
  lemma {:induction false} TailWaitsOnOutOfBounds(path: string, period: nat, c: Cursor,
                                                  replies: seq<Response>, k: nat)
    requires k <= |replies|
    requires forall j :: 0 <= j < k ==> IsOutOfBounds(replies[j])
    ensures Tail(path, period, c, replies).trace ==
              Waits(PollRequest(path, c.from), period, k) + Tail(path, period, c, replies[k..]).trace
    ensures Tail(path, period, c, replies).ending == Tail(path, period, c, replies[k..]).ending
    decreases k
  {
    if k > 0 {
      var q := PollRequest(path, c.from);
      TailCons(path, period, c, replies);
      TailWaitsOnOutOfBounds(path, period, c, replies[1..], k - 1);
      assert replies[1..][k - 1..] == replies[k..];
      assert [Get(q)] + [Sleep(period)] == [Get(q), Sleep(period)];
    } else {
      assert replies[0..] == replies;
    }
  }

  /**
   * What a subscription started with `from` guarantees: its first request
   * carries "from" exactly when one was given, every later request resumes
   * one past the last offset yielded, it never completes by itself, and it
   * yields the events of the successful replies, in order.
   */
  lemma SubscriptionGuarantees(stream: string, partition: string, from: Option<int>, refreshPeriod: nat,
                               replies: seq<Response>)
    ensures var run := Tail(EventsPath(stream, partition), refreshPeriod, Cursor(from, None), replies);
      replies != [] ==>
        |run.trace| > 0 && run.trace[0] == Get(Request(EventsPath(stream, partition), Params(None, from, None)))
    ensures var run := Tail(EventsPath(stream, partition), refreshPeriod, Cursor(from, None), replies);
      Resumes(run.trace, from)
    ensures var run := Tail(EventsPath(stream, partition), refreshPeriod, Cursor(from, None), replies);
      run.ending != Completed
    ensures var run := Tail(EventsPath(stream, partition), refreshPeriod, Cursor(from, None), replies);
      |Requests(run.trace)| <= |replies|
    ensures var run := Tail(EventsPath(stream, partition), refreshPeriod, Cursor(from, None), replies);
      Yielded(run.trace) == SuccessEvents(replies[..|Requests(run.trace)|])
  {
    var path := EventsPath(stream, partition);
    if replies != [] {
      TailCons(path, refreshPeriod, Cursor(from, None), replies);
    }
    TailResumes(path, refreshPeriod, Cursor(from, None), replies);
    TailEndsOnlyOnFatalReply(path, refreshPeriod, Cursor(from, None), replies);
    TailYieldsServedBatches(path, refreshPeriod, Cursor(from, None), replies);
  }

  /**
   * An empty successful batch after an event was yielded sends the next
   * request at once, without a wait, asking again for one past the last offset.
   */
  lemma TailEmptyBatchPollsAgain(path: string, period: nat, last: int, replies: seq<Response>)
    requires replies != [] && replies[0].status < 400 && replies[0].body.events == Some([])
    ensures var c := Cursor(Some(last + 1), Some(last));
      Tail(path, period, c, replies).trace ==
        [Get(PollRequest(path, Some(last + 1)))] + Tail(path, period, c, replies[1..]).trace &&
      Tail(path, period, c, replies).ending == Tail(path, period, c, replies[1..]).ending
  {
    var c := Cursor(Some(last + 1), Some(last));
    TailCons(path, period, c, replies);
    assert Emits([]) == [];
    assert [Get(PollRequest(path, Some(last + 1)))] + [] == [Get(PollRequest(path, Some(last + 1)))];
  }

  /**
   * Tailing from offset 100: a first reply carrying offsets 100 and 101, then
   * only "OffsetOutOfBounds" replies. Exactly those two events are yielded,
   * and every later poll asks for 102 and is followed by one wait.
   */
  lemma TailFromHundred(path: string, period: nat, first: Response, replies: seq<Response>,
                        a: string, b: string)
    requires first.status == 200 && first.body.events == Some([Event(100, a), Event(101, b)])
    requires forall j :: 0 <= j < |replies| ==> IsOutOfBounds(replies[j])
    ensures var run := Tail(path, period, Cursor(Some(100), None), [first] + replies);
      run.trace == [Get(PollRequest(path, Some(100))), Emit(Event(100, a)), Emit(Event(101, b))] +
                   Waits(PollRequest(path, Some(102)), period, |replies|) &&
      run.ending == Exhausted
  {
    var all := [first] + replies;
    var next := Cursor(Some(102), Some(101));
    assert all[1..] == replies;
    assert Poll(Cursor(Some(100), None), first) == Batch([Event(100, a), Event(101, b)], next);
    TailCons(path, period, Cursor(Some(100), None), all);
    TailWaitsOnOutOfBounds(path, period, next, replies, |replies|);
    assert replies[|replies|..] == [];
    assert Emits([Event(100, a), Event(101, b)]) == [Emit(Event(100, a)), Emit(Event(101, b))] by {
      assert Emits([Event(100, a)]) == [Emit(Event(100, a))];
    }
  }
}
