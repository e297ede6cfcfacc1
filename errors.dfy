/**
 * The error translation layer of the consumer: the ULogException text and
 * the classification of a reply by its status code.
 */
module Errors {
  import opened Types

  /** The text of a ULogException raised for type `errorType` and `message`. */
  function ExceptionText(errorType: string, message: string): (t: string)
    ensures |t| == |errorType| + 2 + |message|
    ensures t[..|errorType|] == errorType
    ensures t[|errorType|..|errorType| + 2] == ": "
    ensures t[|errorType| + 2..] == message
  {
    errorType + ": " + message
  }

  /** Position of the first ':' in `t`, or `|t|` when there is none. */
  function ColonIndex(t: string): (i: nat)
    ensures i <= |t|
    ensures forall k :: 0 <= k < i ==> t[k] != ':'
    ensures i < |t| ==> t[i] == ':'
  {
    if t == [] || t[0] == ':' then 0 else 1 + ColonIndex(t[1..])
  }

  /** Reads a type and a message back from an exception text, splitting at the first ": ". */
  function SplitText(t: string): Option<(string, string)>
  {
    var i := ColonIndex(t);
    if i + 2 <= |t| && t[i + 1] == ' ' then Some((t[..i], t[i + 2..])) else None
  }

  /**
   * The text keeps both fields: a type without ':' and any message are
   * recovered from it, and every text that splits is the text of what it splits into.
   */
  lemma ExceptionTextSplits(errorType: string, message: string)
    requires ':' !in errorType
    ensures SplitText(ExceptionText(errorType, message)) == Some((errorType, message))
  {
    var t := ExceptionText(errorType, message);
    assert t[|errorType|] == ':';
    forall k | 0 <= k < |errorType| ensures t[k] != ':' {
      assert t[k] == errorType[k];
    }
    assert ColonIndex(t) == |errorType|;
  }

  lemma SplitTextInverts(t: string, errorType: string, message: string)
    requires SplitText(t) == Some((errorType, message))
    ensures ':' !in errorType
    ensures ExceptionText(errorType, message) == t
  {
    var i := ColonIndex(t);
    assert t == t[..i] + t[i..i + 2] + t[i + 2..];
    assert t[i..i + 2] == ": ";
    forall k | 0 <= k < |errorType| ensures errorType[k] != ':' {
      assert errorType[k] == t[k];
    }
  }

  /**
   * handle_errors: a 400 reply raises a ULogException built from the body's
   * "type" and "message"; a status above 400 raises an HTTP error carrying the
   * status; any status below 400 passes.
   */
  function HandleErrors(r: Response): (o: Outcome)
    ensures o.Pass? <==> r.status < 400
    ensures (o.Fail? && o.fault.ULogError?) <==>
              (r.status == 400 && r.body.errorType.Some? && r.body.message.Some?)
    ensures o.Fail? && o.fault.ULogError? ==>
              o.fault.errorType == r.body.errorType.value && o.fault.message == r.body.message.value
    ensures (o.Fail? && o.fault.HttpError?) <==> r.status > 400
    ensures o.Fail? && o.fault.HttpError? ==> o.fault.status == r.status
    ensures o.Fail? && o.fault.KeyMissing? ==>
              r.status == 400 && o.fault.key == (if r.body.errorType.None? then "type" else "message")
    ensures o.Fail? ==> !o.fault.UnboundOffset?
  {
    if r.status == 400 then
      match r.body.errorType
      case None => Fail(KeyMissing("type"))
      case Some(t) =>
        match r.body.message
        case None => Fail(KeyMissing("message"))
        case Some(m) => Fail(ULogError(t, m))
    else if r.status > 400 then
      Fail(HttpError(r.status))
    else
      Pass
  }
}
