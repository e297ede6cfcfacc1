/**
 * The discovery operations of the consumer: each sends one request,
 * checks the reply for errors and returns the decoded body as it came.
 */
module Discovery {
  import opened Types
  import opened Errors

  /** One request together with what the operation returns or raises for its reply. */
  datatype Call = Call(request: Request, result: Result<Body>)

  /** Sends `request`, checks `reply` and returns its body unchanged when it passes. */
  function Fetch(request: Request, reply: Response): (c: Call)
    ensures c.request == request
    ensures c.result.Success? <==> reply.status < 400
    ensures c.result.Success? ==> c.result.value == reply.body
    ensures c.result.Failure? ==> HandleErrors(reply) == Fail(c.result.fault)
  {
    match HandleErrors(reply)
    case Fail(f) => Call(request, Failure(f))
    case Pass => Call(request, Success(reply.body))
  }

  /** search_streams: "matching" is sent exactly when a pattern is given. */
  function SearchStreams(pattern: Option<string>, reply: Response): (c: Call)
    ensures c.request.path == "/streams"
    ensures c.request.params.matching == pattern
    ensures c.request.params.from.None? && c.request.params.to.None?
    ensures c.result.Success? <==> reply.status < 400
    ensures c.result.Success? ==> c.result.value == reply.body
    ensures c.result.Failure? ==> HandleErrors(reply) == Fail(c.result.fault)
  {
    Fetch(Request("/streams", Params(pattern, None, None)), reply)
  }

  /** describe_stream: a 400 reply raises a ULogException with the body's own type and message. */
  function DescribeStream(stream: string, reply: Response): (c: Call)
    ensures c.request == Request("/streams/" + stream, NoParams)
    ensures c.result.Success? <==> reply.status < 400
    ensures c.result.Success? ==> c.result.value == reply.body
    ensures c.result.Failure? ==> HandleErrors(reply) == Fail(c.result.fault)
    ensures reply.status == 400 && reply.body.errorType.Some? && reply.body.message.Some? ==>
              c.result == Failure(ULogError(reply.body.errorType.value, reply.body.message.value))
  {
    Fetch(Request("/streams/" + stream, NoParams), reply)
  }

  /** describe_stream_partition */
  function DescribeStreamPartition(stream: string, partition: string, reply: Response): (c: Call)
    ensures c.request == Request("/streams/" + stream + "/partitions/" + partition, NoParams)
    ensures c.result.Success? <==> reply.status < 400
    ensures c.result.Success? ==> c.result.value == reply.body
    ensures c.result.Failure? ==> HandleErrors(reply) == Fail(c.result.fault)
  {
    Fetch(Request("/streams/" + stream + "/partitions/" + partition, NoParams), reply)
  }
}
