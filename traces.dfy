/**
 * Views of the trace a read operation produces: the events it yields, the
 * requests it sends, and the resume point a tailing read must request next.
 */
module Traces {
  import opened Types

  /** The actions of yielding `evs`, one by one and in order. */
  function Emits(evs: seq<Event>): (t: seq<Action>)
    ensures |t| == |evs|
  {
    if evs == [] then [] else Emits(evs[..|evs| - 1]) + [Emit(evs[|evs| - 1])]
  }

  /** The events yielded to the caller, in order. */
  function Yielded(trace: seq<Action>): seq<Event>
  {
    if trace == [] then []
    else (if trace[0].Emit? then [trace[0].event] else []) + Yielded(trace[1..])
  }

  /** The requests sent to the service, in order. */
  function Requests(trace: seq<Action>): seq<Request>
  {
    if trace == [] then []
    else (if trace[0].Get? then [trace[0].request] else []) + Requests(trace[1..])
  }

  lemma {:induction false} YieldedAppend(a: seq<Action>, b: seq<Action>)
    ensures Yielded(a + b) == Yielded(a) + Yielded(b)
  {
    if a != [] {
      assert (a + b)[1..] == a[1..] + b;
      YieldedAppend(a[1..], b);
    } else {
      assert a + b == b;
    }
  }

  lemma {:induction false} RequestsAppend(a: seq<Action>, b: seq<Action>)
    ensures Requests(a + b) == Requests(a) + Requests(b)
  {
    if a != [] {
      assert (a + b)[1..] == a[1..] + b;
      RequestsAppend(a[1..], b);
    } else {
      assert a + b == b;
    }
  }

  /** Yielding a batch yields exactly the batch and sends nothing. */
  lemma {:induction false} EmitsYield(evs: seq<Event>)
    ensures Yielded(Emits(evs)) == evs
    ensures Requests(Emits(evs)) == []
  {
    if evs != [] {
      var init := evs[..|evs| - 1];
      EmitsYield(init);
      YieldedAppend(Emits(init), [Emit(evs[|evs| - 1])]);
      RequestsAppend(Emits(init), [Emit(evs[|evs| - 1])]);
      assert evs == init + [evs[|evs| - 1]];
    }
  }

  /** A request followed by a batch sends that one request and yields that batch. */
  lemma RequestThenEmits(request: Request, evs: seq<Event>)
    ensures Requests([Get(request)] + Emits(evs)) == [request]
    ensures Yielded([Get(request)] + Emits(evs)) == evs
  {
    assert [Get(request)][1..] == [];
    assert Requests([Get(request)]) == [request];
    assert Yielded([Get(request)]) == [];
    EmitsYield(evs);
    RequestsAppend([Get(request)], Emits(evs));
    YieldedAppend([Get(request)], Emits(evs));
  }

  /** A request, then actions that send nothing, then the rest of a trace. */
  lemma StepViews(request: Request, middle: seq<Action>, rest: seq<Action>)
    requires Requests(middle) == []
    ensures Requests([Get(request)] + middle + rest) == [request] + Requests(rest)
    ensures Yielded([Get(request)] + middle + rest) == Yielded(middle) + Yielded(rest)
  {
    assert [Get(request)][1..] == [];
    assert Requests([Get(request)]) == [request];
    assert Yielded([Get(request)]) == [];
    RequestsAppend([Get(request)], middle);
    YieldedAppend([Get(request)], middle);
    RequestsAppend([Get(request)] + middle, rest);
    YieldedAppend([Get(request)] + middle, rest);
  }

  /** Events a reply delivers to the caller: those of a reply below 400 that has an "events" key. */
  function Delivered(r: Response): seq<Event>
  {
    if r.status < 400 && r.body.events.Some? then r.body.events.value else []
  }

  /** The events of the successful replies among `replies`, concatenated in order. */
  function SuccessEvents(replies: seq<Response>): seq<Event>
  {
    if replies == [] then [] else Delivered(replies[0]) + SuccessEvents(replies[1..])
  }

  lemma {:induction false} SuccessEventsCons(replies: seq<Response>, k: nat)
    requires k < |replies|
    ensures SuccessEvents(replies[..k + 1]) == Delivered(replies[0]) + SuccessEvents(replies[1..][..k])
  {
    assert replies[..k + 1][0] == replies[0];
    assert replies[..k + 1][1..] == replies[1..][..k];
  }

  /**
   * The "from" offset the next tailing request carries after `trace`, when
   * it started from `from`: one past the last yielded offset, or `from`
   * while nothing has been yielded.
   */
  function ResumePoint(trace: seq<Action>, from: Option<int>): Option<int>
  {
    if trace == [] then from
    else ResumePoint(trace[1..], if trace[0].Emit? then Some(trace[0].event.offset + 1) else from)
  }

  /** Every request in `trace` asks for exactly its resume point, starting from `from`. */
  predicate Resumes(trace: seq<Action>, from: Option<int>)
  {
    trace == [] ||
    ((trace[0].Get? ==> trace[0].request.params.from == from) &&
     Resumes(trace[1..], if trace[0].Emit? then Some(trace[0].event.offset + 1) else from))
  }

  lemma {:induction false} ResumePointAppend(a: seq<Action>, b: seq<Action>, from: Option<int>)
    ensures ResumePoint(a + b, from) == ResumePoint(b, ResumePoint(a, from))
  {
    if a != [] {
      assert (a + b)[1..] == a[1..] + b;
      ResumePointAppend(a[1..], b, if a[0].Emit? then Some(a[0].event.offset + 1) else from);
    } else {
      assert a + b == b;
    }
  }

  lemma {:induction false} ResumesAppend(a: seq<Action>, b: seq<Action>, from: Option<int>)
    ensures Resumes(a + b, from) <==> Resumes(a, from) && Resumes(b, ResumePoint(a, from))
  {
    if a != [] {
      assert (a + b)[1..] == a[1..] + b;
      ResumesAppend(a[1..], b, if a[0].Emit? then Some(a[0].event.offset + 1) else from);
    } else {
      assert a + b == b;
    }
  }

  /** After yielding a non-empty batch, the resume point is its last offset plus one. */
  lemma {:induction false} EmitsResume(evs: seq<Event>, from: Option<int>)
    ensures Resumes(Emits(evs), from)
    ensures ResumePoint(Emits(evs), from) == if evs == [] then from else Some(evs[|evs| - 1].offset + 1)
  {
    if evs != [] {
      var init := evs[..|evs| - 1];
      var last := [Emit(evs[|evs| - 1])];
      EmitsResume(init, from);
      ResumesAppend(Emits(init), last, from);
      ResumePointAppend(Emits(init), last, from);
    }
  }

  /** What `Resumes` means, request by request. */
  lemma {:induction false} ResumesAt(trace: seq<Action>, from: Option<int>, k: nat)
    requires Resumes(trace, from)
    requires k < |trace| && trace[k].Get?
    ensures trace[k].request.params.from == ResumePoint(trace[..k], from)
  {
    if k > 0 {
      var next := if trace[0].Emit? then Some(trace[0].event.offset + 1) else from;
      ResumesAt(trace[1..], next, k - 1);
      assert trace[..k][1..] == trace[1..][..k - 1];
    }
  }

  /**
   * One request answered by `replies[0]`, whose actions `middle` yield what
   * that reply delivers, followed by a run over the remaining replies.
   */
  lemma ServedStep(request: Request, middle: seq<Action>, rest: Run, replies: seq<Response>)
    requires replies != []
    requires Requests(middle) == [] && Yielded(middle) == Delivered(replies[0])
    requires |Requests(rest.trace)| <= |replies| - 1
    requires rest.ending == Exhausted ==> |Requests(rest.trace)| == |replies| - 1
    requires Yielded(rest.trace) == SuccessEvents(replies[1..][..|Requests(rest.trace)|])
    ensures var t := [Get(request)] + middle + rest.trace;
      |Requests(t)| <= |replies| &&
      (rest.ending == Exhausted ==> |Requests(t)| == |replies|) &&
      Yielded(t) == SuccessEvents(replies[..|Requests(t)|])
  {
    StepViews(request, middle, rest.trace);
    SuccessEventsCons(replies, |Requests(rest.trace)|);
  }
}
