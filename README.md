# ULog consumer, modelled in Dafny

The ULog consumer is the read side of a client library for the ULog event-log
service. It discovers streams, describes streams and their partitions, reads
a bounded range of a partition by following `next_page_url` page references,
and tails a partition forever. While tailing it waits on
"OffsetOutOfBounds" replies and resumes one past the last offset it
yielded. Errors pass through one translation step. A 400 reply becomes a
`ULogException` carrying the body's `type` and `message`. A status above 400
becomes an HTTP error. Anything below 400 passes.

This project models that core as follows.

- The service is a sequence of replies (`Types.Response`). Each reply is a
  status code plus the decoded JSON body, seen through the keys the consumer
  reads. The model answers the n-th request with the n-th reply.
- A read operation produces a `Run`: the observable trace (requests sent,
  events yielded, waits) and how it stopped. It can complete, raise a fault,
  or run out of supplied replies.
- The two generator operations, `read_from` and `subscribe_to`, are imperative
  methods with the source's loops: `BoundedRead.ReadFrom` and
  `Tailing.SubscribeTo`. Each is proved equal to a recursive specification
  function, `Walk` and `Tail`. The promised properties are proved about those
  functions as lemmas.
- Error translation and the discovery calls are pure functions.

Files:

- `types.dfy`: replies, requests, faults and traces.
- `errors.dfy`: `ULogException` text and `handle_errors`.
- `traces.dfy`: the views of a trace (requests, yielded events, resume points) and their algebra.
- `discovery.dfy`: `search_streams`, `describe_stream` and `describe_stream_partition`.
- `read.dfy`: `read_from`.
- `tail.dfy`: `subscribe_to`.

Three behaviours of the code that a reader might not expect, modelled as the code has them:

- **Empty batch after earlier events.** A successful tailing poll can return
  an empty `events` list after earlier events were yielded. The code then
  polls again at once, with `from` unchanged. A polite tailing loop would
  wait `refresh_period` here; the code does not. `Tailing.Poll` gives
  `Batch([], …)`, and `Tailing.TailEmptyBatchPollsAgain` proves that no
  `Sleep` follows.
- **Empty batch before any event.** If that empty successful poll comes
  before any event was ever yielded, `last_offset_yielded` is still unbound.
  The code raises `UnboundLocalError`. The model raises the fault
  `UnboundOffset` (`Tailing.Poll`, `Tailing.SubscribeTo`).
- **Missing "type" on a 400 while tailing.** The out-of-bounds test reads
  `type` before `handle_errors` runs. A 400 body without `type` therefore
  raises `KeyError('type')` at that test. That is the same fault
  `handle_errors` would raise, `KeyMissing("type")`.

## Model

| member | source | states |
|---|---|---|
| Errors.ExceptionText | ulog/consumer.py:8-10 | the exception text is the type, then ": ", then the message, with the length of the three |
| Errors.ExceptionTextSplits | ulog/consumer.py:8-10 | for a type without ':', splitting the exception text at its first ": " gives back exactly the type and the message |
| Errors.SplitTextInverts | ulog/consumer.py:8-10 | every text that splits into (type, message) is the exception text of that pair, and the type has no ':' |
| Errors.HandleErrors | ulog/consumer.py:94-100 | passes exactly when status < 400. 400 with both keys gives a ULogException with the body's type and message. 400 with a key missing gives KeyError on "type", else "message". Above 400 gives an HTTP error with the status. |
| Discovery.Fetch | ulog/consumer.py:23-26 | the request is sent as given. Success exactly when status < 400, and then the body is returned unchanged. A failure is the fault handle_errors raises. |
| Discovery.SearchStreams | ulog/consumer.py:20-26 | requests "/streams" with "matching" exactly when a pattern is given and no other parameter. The body is returned unchanged exactly when status < 400, else the handle_errors fault. |
| Discovery.DescribeStream | ulog/consumer.py:29-34 | requests "/streams/{stream}" with no parameters. The body is passed through. A 400 with type and message raises exactly ULogException(type, message). |
| Discovery.DescribeStreamPartition | ulog/consumer.py:37-42 | requests "/streams/{stream}/partitions/{partition}" with no parameters. The body is returned unchanged exactly when status < 400, else the handle_errors fault. |
| BoundedRead.WalkCons | ulog/consumer.py:55-63 | the definition of `Walk` (the bounded read as a function of its replies, through `PageStep`), unfolded for one page, in the order the code checks: handle_errors fault; missing "events"; events yielded then missing "next_page_url"; events yielded then "" completes; events yielded then the continuation is requested next |
| BoundedRead.WalkStartsWithPage | ulog/consumer.py:54-56 | the first action of a read is the request for the first page |
| BoundedRead.ReadFrom | ulog/consumer.py:45-63 | the loop over pages, with the inner yield loop, produces exactly the trace and ending of `Walk` from the first page, whose query carries "from"/"to" only when given |
| BoundedRead.WalkYieldsAcceptedPages | ulog/consumer.py:55-63 | no request without a reply. Every reply is requested when replies run out. The yielded events are those of the requested replies below 400, in order. |
| BoundedRead.WalkCompletes | ulog/consumer.py:55-63 | pages chained by non-empty continuations, then one with "": the read completes after requesting the first page and each continuation in order. It yields every page's events, concatenated. |
| BoundedRead.WalkStopsAtError | ulog/consumer.py:56-61 | when reply i fails the error check after i chained pages, the read raises that fault after exactly i + 1 requests. It yields only pages 0 .. i-1, and nothing follows the failing request. |
| BoundedRead.ThreePages | ulog/consumer.py:52-63 | reading 5..10 over three chained pages requests the first page with from=5 and to=10, then the two continuations. It completes and yields the three pages' events back to back. |
| Tailing.Poll | ulog/consumer.py:79-91 | retries exactly on a 400 "OffsetOutOfBounds". Any other reply that fails the error check aborts with exactly the handle_errors fault: a ULogException with the body's type and message, a KeyError, or the HTTP error. A reply below 400 without "events" aborts with KeyError("events"). A batch comes only from a reply below 400 with events and resumes at its last offset + 1. An empty batch after an earlier event is a batch that keeps the resume point. UnboundOffset is raised exactly when an empty batch comes before any event. |
| Tailing.YieldBatch | ulog/consumer.py:87-89 | yields the batch's events in order; the last offset yielded becomes the batch's last offset, or stays as it was for an empty batch |
| Tailing.SubscribeTo | ulog/consumer.py:66-91 | the polling loop produces exactly the trace and ending of `Tail` from the initial "from" with nothing yielded yet |
| Tailing.TailCons | ulog/consumer.py:74-91 | the definition of `Tail` (the tailing read as a function of its replies), unfolded for one poll: a retry sends the request, waits, and polls again from the same cursor. An abort raises right after the request. A batch yields its events and polls from the new cursor. |
| Tailing.TailEndsOnlyOnFatalReply | ulog/consumer.py:74-84 | the tailing read never completes by itself. It stops only by raising, right after the request whose reply raised. An "OffsetOutOfBounds" ULogException never escapes. |
| Tailing.TailYieldsServedBatches | ulog/consumer.py:74-89 | no request without a reply. Every reply is requested when replies run out. The yielded events are those of the requested replies below 400, in order. |
| Tailing.TailResumes | ulog/consumer.py:87-91 | every request asks for one past the last offset yielded before it, or for the initial "from" while nothing has been yielded |
| Tailing.TailWaitsOnOutOfBounds | ulog/consumer.py:79-81 | k "OffsetOutOfBounds" replies give k rounds of the same request, each followed by one wait of the refresh period. They yield and raise nothing, and the read then goes on from the same cursor. |
| Tailing.TailEmptyBatchPollsAgain | ulog/consumer.py:87-91 | an empty successful batch after an event was yielded is followed at once by the next request, with no wait, again asking for one past the last offset |
| Tailing.SubscriptionGuarantees | ulog/consumer.py:66-91 | a subscription's first request carries "from" exactly when given. Every request resumes one past the last yielded offset. It never completes. It sends no request without a reply and yields the events of the successful replies in order. |
| Tailing.TailFromHundred | ulog/consumer.py:72-91 | tailing from 100, one reply with offsets 100 and 101, then only "OffsetOutOfBounds": exactly those two events are yielded, then every poll asks for 102 and waits once |
| Traces.EmitsYield | ulog/consumer.py:60-61 | yielding a batch yields exactly that batch and sends no request |
| Traces.ResumesAt | ulog/consumer.py:87-91 | what the resume guarantee means for a single request: its "from" is the resume point of the trace before it |

## Left out

- `ulog/client.py` (base URL, session, bearer `Authorization` header) is not part of this model. A request is a path relative to the base URL plus its query.
- URL encoding: the query string `?from=…&to=…` of the first page, built with `urlencode`, is modelled as the structured `Params` it encodes.
- HTTP transport and JSON decoding: a reply is a status and a decoded body. These are not modelled: a body that is not JSON, a `next_page_url` or `events` that is JSON `null` or of the wrong type, and an event without an `offset` key.
- Status codes are restricted to 100..599, the range in which `raise_for_status` raises exactly for 400..599.
- `time.sleep` is an action `Sleep(refresh_period)` in the trace. Real time and non-integral periods are not modelled.
- Generator laziness (one request per advance, no prefetch) is represented only by the order of actions in the trace. A caller abandoning a generator part-way is a prefix of the trace.
- Infinite runs: the tailing loop and a read whose server never returns "" run as long as replies are supplied. They then end in `Exhausted`. Liveness of the infinite sequence is not modelled.
- Discovery bodies (stream lists and descriptors) are passed through as the opaque decoded `Body`, not as separate shapes.
- A wait after an empty successful batch: the code does not wait there, and the model follows the code (see above).
- Partition identifiers and stream names are strings. The source formats whatever value it is given (an integer partition such as `0`) into the path with `format`; that conversion to text is not modelled.
- Default arguments are not modelled: every model operation takes all its parameters. This covers `refresh_period=2` of `subscribe_to` and the `None` defaults of `pattern`, `_from` and `_to`, which are passed as `None` explicitly.
- Errors.HandleErrors: the model assumes the body's "type" and "message" are ASCII. The source is Python 2 code (`urllib.urlencode`). There, formatting a non-ASCII unicode type or message into the byte-string template of the exception text raises `UnicodeEncodeError` instead of `ULogException`, and the model does not represent that fault. The same holds for Errors.ExceptionText.
