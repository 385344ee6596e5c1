/** What the handlers see of HTTP: the method (`verb`) and path of a request, and
    the status, the `Access-Control-Allow-Origin` header and the body of
    the answer. */
module Http {
  import opened Common

  const MethodPost: string := "POST"
  const ApiPath: string := "/api.json/"

  const StatusOK: int := 200
  const StatusBadRequest: int := 400
  const StatusNotFound: int := 404
  const StatusInternalServerError: int := 500

  datatype Request = Request(verb: string, path: string)

  /** An answer, or a handler that panicked: `net/http` recovers the panic
      and drops the connection (`Aborted`). A panic on a goroutine of its
      own is not recovered and ends the whole server (`Crashed`). */
  datatype Response =
    | Reply(status: int, allowOrigin: Option<string>, body: bytes)
    | Aborted(panic: Panic)
    | Crashed(panic: Panic)
}
