/** What a handler sends back, and how every handler's catch block turns a thrown
    value into a response. */
module Http {
  import opened Js
  import opened Models

  /** What a handler can throw: an `Error` with its message, or any other value. */
  datatype Thrown = ErrorObj(message: string) | NonError

  /** A response body: a plain string (`res.send(text)`), a JSON object with a
      message and perhaps a row, or the JSON array of the listed videos. */
  datatype Body =
    | Text(text: string)
    | Message(message: string)
    | MessageAndRow(message: string, row: Row)
    | VideoList(videos: seq<Video>)

  datatype Response = Response(status: int, body: Body)

  /** The status of a response on which `res.status(...)` was never called. */
  const DefaultStatus := 200
  const Unexpected := "Erro inesperado"

  /** The catch block shared by all handlers. It tests the status of the REQUEST, not
      of the response: the status set before the throw is kept, and replaced by 500
      only when the request's status is 200. On a request received by a server that
      status is null (`None`), so in practice the status set before the throw is
      always kept, and a failure before any `res.status(...)` is sent with 200. */
  function CatchResponse(statusSoFar: int, reqStatus: Option<int>, thrown: Thrown): (r: Response)
    ensures reqStatus == Some(200) ==> r.status == 500
    ensures reqStatus != Some(200) ==> r.status == statusSoFar
    ensures thrown.ErrorObj? ==> r.body == Text(thrown.message)
    ensures thrown.NonError? ==> r.body == Text(Unexpected)
  {
    var status := if reqStatus == Some(200) then 500 else statusSoFar;
    match thrown
    case ErrorObj(message) => Response(status, Text(message))
    case NonError => Response(status, Text(Unexpected))
  }

  /** A failure of the database: the `call`-th awaited query of a handler (counting
      from 0) throws `thrown` instead of completing. */
  datatype Fault = NoFault | FailAt(call: nat, thrown: Thrown)

  predicate Throws(fault: Fault, call: nat)
  {
    fault.FailAt? && fault.call == call
  }
}
