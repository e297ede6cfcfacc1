/**
 * The values exchanged between the ULog consumer and the ULog service:
 * decoded replies, the requests the consumer issues, the faults it raises,
 * and the observable trace of a read operation.
 */
module Types {

  datatype Option<T> = None | Some(value: T)

  /** An HTTP status code. The consumer only ever compares it against 400. */
  newtype StatusCode = s: int | 100 <= s < 600 witness 200

  /** One record of a partition: its offset and an opaque payload. */
  datatype Event = Event(offset: int, data: string)

  /**
   * The decoded JSON body of a reply, seen through the keys the consumer reads.
   * `None` means that the key is absent from the body.
   */
  datatype Body = Body(
    errorType: Option<string>,       // "type" of a 400 reply
    message: Option<string>,         // "message" of a 400 reply
    events: Option<seq<Event>>,      // "events" of an events page
    nextPageUrl: Option<string>)     // "next_page_url" of an events page

  datatype Response = Response(status: StatusCode, body: Body)

  /** Query parameters; an absent parameter is `None`, never a sentinel. */
  datatype Params = Params(matching: Option<string>, from: Option<int>, to: Option<int>)

  const NoParams := Params(None, None, None)

  /** A GET issued through the client: a path relative to the base URL and its query. */
  datatype Request = Request(path: string, params: Params)

  /** What a caller of the consumer can observe, in order. */
  datatype Action =
    | Get(request: Request)      // one request sent to the service
    | Emit(event: Event)         // one event yielded to the caller
    | Sleep(seconds: nat)        // one wait of the refresh period

  /** The exceptions the consumer lets escape. */
  datatype Fault =
    | ULogError(errorType: string, message: string)   // ULogException, a 400 reply
    | HttpError(status: StatusCode)                   // raise_for_status, a status above 400
    | KeyMissing(key: string)                         // KeyError on a decoded body
    | UnboundOffset                                   // the resume offset read before any event set it

  datatype Result<T> = Success(value: T) | Failure(fault: Fault)

  /** The verdict of the error check on one reply. */
  datatype Outcome = Pass | Fail(fault: Fault)

  /** How a read operation stopped. */
  datatype Ending =
    | Completed        // the bounded read reached an empty continuation
    | Raised(fault: Fault)
    | Exhausted        // the operation wants another reply but none is supplied

  datatype Run = Run(trace: seq<Action>, ending: Ending)

  /** The events endpoint of a stream partition. */
  function EventsPath(stream: string, partition: string): string
  {
    "/streams/" + stream + "/partitions/" + partition + "/events"
  }
}
