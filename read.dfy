/**
 * read_from: the bounded read of a stream partition, a walk over pages
 * chained by their "next_page_url" until one of them is empty.
 */
module BoundedRead {
  import opened Types
  import opened Errors
  import opened Traces

  /** The first page request: "from" and "to" are sent exactly for the bounds given. */
  function FirstPage(stream: string, partition: string, from: Option<int>, to: Option<int>): Request
  {
    Request(EventsPath(stream, partition), Params(None, from, to))
  }

  /** The request for a continuation reference returned by the service. */
  function Continuation(url: string): Request
  {
    Request(url, NoParams)
  }

  /** Where a page reply leads once its events are yielded. */
  datatype Step = Follow(url: string) | Stop(ending: Ending)

  /**
   * The error check, then the "events" key, then the "next_page_url" key;
   * an empty continuation ends the walk.
   */
  function PageStep(reply: Response): Step
  {
    match HandleErrors(reply)
    case Fail(f) => Stop(Raised(f))
    case Pass =>
      if reply.body.events.None? then Stop(Raised(KeyMissing("events")))
      else
        match reply.body.nextPageUrl
        case None => Stop(Raised(KeyMissing("next_page_url")))
        case Some(url) => if url == "" then Stop(Completed) else Follow(url)
  }

  /**
   * The walk that starts by sending `page` and is answered by `replies`, one
   * reply per request: each page's events are yielded before the next request.
   */
  function Walk(page: Request, replies: seq<Response>): Run
    decreases |replies|
  {
    if replies == [] then Run([], Exhausted)
    else
      var head := [Get(page)] + Emits(Delivered(replies[0]));
      match PageStep(replies[0])
      case Stop(e) => Run(head, e)
      case Follow(url) =>
        var rest := Walk(Continuation(url), replies[1..]);
        Run(head + rest.trace, rest.ending)
  }

  /** One page of the walk, case by case in the order read_from checks them. */
  lemma WalkCons(page: Request, replies: seq<Response>)
    requires replies != []
    ensures var r := replies[0];
      HandleErrors(r).Fail? ==> Walk(page, replies) == Run([Get(page)], Raised(HandleErrors(r).fault))
    ensures var r := replies[0];
      HandleErrors(r).Pass? && r.body.events.None? ==>
        Walk(page, replies) == Run([Get(page)], Raised(KeyMissing("events")))
    ensures var r := replies[0];
      HandleErrors(r).Pass? && r.body.events.Some? && r.body.nextPageUrl.None? ==>
        Walk(page, replies) == Run([Get(page)] + Emits(r.body.events.value), Raised(KeyMissing("next_page_url")))
    ensures var r := replies[0];
      HandleErrors(r).Pass? && r.body.events.Some? && r.body.nextPageUrl == Some("") ==>
        Walk(page, replies) == Run([Get(page)] + Emits(r.body.events.value), Completed)
    ensures var r := replies[0];
      HandleErrors(r).Pass? && r.body.events.Some? && r.body.nextPageUrl.Some? && r.body.nextPageUrl.value != "" ==>
        var rest := Walk(Continuation(r.body.nextPageUrl.value), replies[1..]);
        Walk(page, replies).trace == [Get(page)] + Emits(r.body.events.value) + rest.trace &&
        Walk(page, replies).ending == rest.ending
  {
    assert Emits([]) == [];
    assert [Get(page)] + [] == [Get(page)];
  }

  /** The first request of a walk is the page it starts from. */
  lemma WalkStartsWithPage(page: Request, replies: seq<Response>)
    ensures replies != [] ==> |Walk(page, replies).trace| > 0 && Walk(page, replies).trace[0] == Get(page)
  {
    if replies != [] {
      WalkCons(page, replies);
    }
  }

  /** A page on which the walk stops, with the trace built so far. */
  lemma WalkStopsHere(whole: Run, before: seq<Action>, page: Request, remaining: seq<Response>, trace: seq<Action>, f: Fault)
    requires remaining != []
    requires whole.trace == before + Walk(page, remaining).trace && whole.ending == Walk(page, remaining).ending
    requires var r := remaining[0];
      || (HandleErrors(r).Fail? && f == HandleErrors(r).fault && trace == before + [Get(page)])
      || (HandleErrors(r).Pass? && r.body.events.None? && f == KeyMissing("events") && trace == before + [Get(page)])
      || (HandleErrors(r).Pass? && r.body.events.Some? && r.body.nextPageUrl.None? &&
          f == KeyMissing("next_page_url") && trace == before + ([Get(page)] + Emits(r.body.events.value)))
    ensures whole == Run(trace, Raised(f))
  {
    WalkCons(page, remaining);
  }

  /** A page on which the walk goes on, with the trace built so far. */
  lemma WalkFollowsHere(whole: Run, before: seq<Action>, page: Request, remaining: seq<Response>, trace: seq<Action>)
    requires remaining != [] && HandleErrors(remaining[0]).Pass?
    requires remaining[0].body.events.Some? && remaining[0].body.nextPageUrl.Some?
    requires whole.trace == before + Walk(page, remaining).trace && whole.ending == Walk(page, remaining).ending
    requires trace == before + ([Get(page)] + Emits(remaining[0].body.events.value))
    ensures var url := remaining[0].body.nextPageUrl.value;
      if url == "" then whole == Run(trace, Completed)
      else whole.trace == trace + Walk(Continuation(url), remaining[1..]).trace &&
           whole.ending == Walk(Continuation(url), remaining[1..]).ending
  {
    WalkCons(page, remaining);
  }

  /** read_from, answered by the service with `replies` in order. */
  method ReadFrom(stream: string, partition: string, from: Option<int>, to: Option<int>,
                  replies: seq<Response>)
    returns (trace: seq<Action>, ending: Ending)
    ensures Run(trace, ending) == Walk(FirstPage(stream, partition, from, to), replies)
  {
    ghost var whole := Walk(FirstPage(stream, partition, from, to), replies);
    var nextPage := FirstPage(stream, partition, from, to);
    var i := 0;
    trace := [];
    assert replies[0..] == replies;
    while nextPage.path != ""
      invariant 0 <= i <= |replies|
      invariant nextPage.path != "" ==>
                  whole.trace == trace + Walk(nextPage, replies[i..]).trace &&
                  whole.ending == Walk(nextPage, replies[i..]).ending
      invariant nextPage.path == "" ==> whole == Run(trace, Completed)
      decreases |replies| - i
    {
      if i == |replies| {
        assert trace + [] == trace;
        ending := Exhausted;
        return;
      }
      ghost var before := trace;
      ghost var remaining := replies[i..];
      var reply := replies[i];
      assert remaining[0] == reply && remaining[1..] == replies[i + 1..];
      trace := trace + [Get(nextPage)];
      var outcome := HandleErrors(reply);
      if outcome.Fail? {
        ending := Raised(outcome.fault);
        WalkStopsHere(whole, before, nextPage, remaining, trace, outcome.fault);
        return;
      }
      if reply.body.events.None? {
        ending := Raised(KeyMissing("events"));
        WalkStopsHere(whole, before, nextPage, remaining, trace, KeyMissing("events"));
        return;
      }
      var evs := reply.body.events.value;
      for k := 0 to |evs|
        invariant trace == before + [Get(nextPage)] + Emits(evs[..k])
      {
        assert evs[..k + 1][..k] == evs[..k];
        trace := trace + [Emit(evs[k])];
      }
      assert evs[..|evs|] == evs;
      assert trace == before + ([Get(nextPage)] + Emits(evs));
      if reply.body.nextPageUrl.None? {
        ending := Raised(KeyMissing("next_page_url"));
        WalkStopsHere(whole, before, nextPage, remaining, trace, KeyMissing("next_page_url"));
        return;
      }
      WalkFollowsHere(whole, before, nextPage, remaining, trace);
      nextPage := Continuation(reply.body.nextPageUrl.value);
      i := i + 1;
    }
    ending := Completed;
  }

  /** A page that passes the error check and has both keys. */
  predicate GoodPage(r: Response)
  {
    r.status < 400 && r.body.events.Some? && r.body.nextPageUrl.Some?
  }

  /** Good pages, each pointing to a further page. */
  predicate Chained(replies: seq<Response>)
  {
    forall i :: 0 <= i < |replies| ==> GoodPage(replies[i]) && replies[i].body.nextPageUrl.value != ""
  }

  /** The continuation requests that the pages `replies` point to, in order. */
  function Links(replies: seq<Response>): seq<Request>
    requires Chained(replies)
  {
    if replies == [] then [] else [Continuation(replies[0].body.nextPageUrl.value)] + Links(replies[1..])
  }

  /** The first page of a walk sends one request and yields that page's events. */
  lemma PageViews(page: Request, evs: seq<Event>, rest: seq<Action>)
    ensures Requests([Get(page)] + Emits(evs) + rest) == [page] + Requests(rest)
    ensures Yielded([Get(page)] + Emits(evs) + rest) == evs + Yielded(rest)
  {
    var head := [Get(page)] + Emits(evs);
    RequestThenEmits(page, evs);
    RequestsAppend(head, rest);
    YieldedAppend(head, rest);
  }

  /**
   * What any walk does: it sends no request without a reply, sends one for
   * every reply when the replies run out, and yields exactly the events of
   * the replies that passed the error check, in the order received.
   */
  lemma {:induction false} WalkYieldsAcceptedPages(page: Request, replies: seq<Response>)
    ensures |Requests(Walk(page, replies).trace)| <= |replies|
    ensures Walk(page, replies).ending == Exhausted ==> |Requests(Walk(page, replies).trace)| == |replies|
    ensures Yielded(Walk(page, replies).trace) ==
              SuccessEvents(replies[..|Requests(Walk(page, replies).trace)|])
    decreases |replies|
  {
    if replies != [] {
      var step := PageStep(replies[0]);
      WalkCons(page, replies);
      if step.Stop? {
        PageViews(page, Delivered(replies[0]), []);
        assert [Get(page)] + Emits(Delivered(replies[0])) + [] == [Get(page)] + Emits(Delivered(replies[0]));
        SuccessEventsCons(replies, 0);
        assert replies[1..][..0] == [];
      } else {
        var rest := Walk(Continuation(step.url), replies[1..]);
        WalkYieldsAcceptedPages(Continuation(step.url), replies[1..]);
        PageViews(page, Delivered(replies[0]), rest.trace);
        SuccessEventsCons(replies, |Requests(rest.trace)|);
      }
    }
  }

  /**
   * A walk over pages 0 .. n-1 whose last page alone has an empty
   * continuation completes after exactly n requests (the first page, then
   * each continuation in order), yielding every page's events in order.
   */
  lemma {:induction false} WalkCompletes(page: Request, replies: seq<Response>, n: nat)
    requires 0 < n <= |replies|
    requires Chained(replies[..n - 1])
    requires GoodPage(replies[n - 1]) && replies[n - 1].body.nextPageUrl.value == ""
    ensures Walk(page, replies).ending == Completed
    ensures Requests(Walk(page, replies).trace) == [page] + Links(replies[..n - 1])
    ensures Yielded(Walk(page, replies).trace) == SuccessEvents(replies[..n])
    decreases n
  {
    WalkCons(page, replies);
    SuccessEventsCons(replies, n - 1);
    if n == 1 {
      PageViews(page, Delivered(replies[0]), []);
      assert [Get(page)] + Emits(Delivered(replies[0])) + [] == [Get(page)] + Emits(Delivered(replies[0]));
      assert replies[1..][..0] == [];
    } else {
      assert replies[..n - 1][0] == replies[0];
      var next := Continuation(replies[0].body.nextPageUrl.value);
      var rest := Walk(next, replies[1..]);
      assert replies[1..][..n - 2] == replies[..n - 1][1..];
      WalkCompletes(next, replies[1..], n - 1);
      PageViews(page, Delivered(replies[0]), rest.trace);
    }
  }

  /**
   * When pages 0 .. i-1 chain on and reply i fails the error check, the walk
   * raises that error after exactly i + 1 requests, having yielded the
   * events of pages 0 .. i-1 and nothing after the failing request.
   */
  lemma {:induction false} WalkStopsAtError(page: Request, replies: seq<Response>, i: nat)
    requires i < |replies|
    requires Chained(replies[..i])
    requires HandleErrors(replies[i]).Fail?
    ensures Walk(page, replies).ending == Raised(HandleErrors(replies[i]).fault)
    ensures Requests(Walk(page, replies).trace) == [page] + Links(replies[..i])
    ensures Yielded(Walk(page, replies).trace) == SuccessEvents(replies[..i])
    ensures var t := Walk(page, replies).trace; |t| > 0 && t[|t| - 1].Get?
    decreases i
  {
    WalkCons(page, replies);
    if i == 0 {
      PageViews(page, Delivered(replies[0]), []);
      assert [Get(page)] + Emits(Delivered(replies[0])) + [] == [Get(page)] + Emits(Delivered(replies[0]));
      assert replies[..0] == [];
    } else {
      assert replies[..i][0] == replies[0];
      var next := Continuation(replies[0].body.nextPageUrl.value);
      var rest := Walk(next, replies[1..]);
      assert replies[1..][..i - 1] == replies[..i][1..];
      WalkStopsAtError(next, replies[1..], i - 1);
      PageViews(page, Delivered(replies[0]), rest.trace);
      SuccessEventsCons(replies, i - 1);
    }
  }

  /**
   * Reading offsets 5 to 10 over three pages chained by non-empty
   * continuations, the last one empty: the read completes after requesting
   * the first page and the two continuations, and yields the three pages'
   * events back to back.
   */
  lemma ThreePages(stream: string, partition: string, p1: Response, p2: Response, p3: Response,
                   u1: string, u2: string)
    requires GoodPage(p1) && p1.body.nextPageUrl == Some(u1) && u1 != ""
    requires GoodPage(p2) && p2.body.nextPageUrl == Some(u2) && u2 != ""
    requires GoodPage(p3) && p3.body.nextPageUrl == Some("")
    ensures var run := Walk(FirstPage(stream, partition, Some(5), Some(10)), [p1, p2, p3]);
      run.ending == Completed &&
      Requests(run.trace) ==
        [Request(EventsPath(stream, partition), Params(None, Some(5), Some(10))), Continuation(u1), Continuation(u2)] &&
      Yielded(run.trace) == p1.body.events.value + p2.body.events.value + p3.body.events.value
  {
    var replies := [p1, p2, p3];
    assert replies[..2] == [p1, p2] && replies[..3] == replies;
    WalkCompletes(FirstPage(stream, partition, Some(5), Some(10)), replies, 3);
    assert [p1, p2][1..] == [p2] && [p2][1..] == [];
    assert Links([p2]) == [Continuation(u2)];
    assert Links([p1, p2]) == [Continuation(u1)] + Links([p2]);
    assert replies[1..] == [p2, p3] && [p2, p3][1..] == [p3] && [p3][1..] == [];
    assert SuccessEvents([p3]) == p3.body.events.value;
    assert SuccessEvents([p2, p3]) == p2.body.events.value + SuccessEvents([p3]);
    assert SuccessEvents(replies) == p1.body.events.value + SuccessEvents([p2, p3]);
  }
}
