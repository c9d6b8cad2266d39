/**
 * What one run of the uploader ends with: the single HTTP request it issues
 * (described, not performed), or the error that stopped it, and the process
 * exit status the top level maps each ending to.
 */
module Outcomes {
  import opened Wrappers
  import opened Bytes
  import opened Errors
  import opened PathPayload

  /** The pair handed to `requests.auth.HTTPBasicAuth`. */
  datatype Credentials = Credentials(username: string, password: string)

  datatype Request =
      /** `requests.post(url, data=json.dumps(payload), verify=verify)` */
    | Post(url: string, payload: Payload, verify: bool)
      /** `requests.put(url, data=contents, [auth=...], verify=verify)` */
    | Put(url: string, data: seq<byte>, auth: Option<Credentials>, verify: bool)

  datatype Outcome =
    | Sent(request: Request)     // the request was issued; the script then exits 0
    | Failed(error: UploadError) // one of the three exceptions reached the top level
    | Crashed                    // an IndexError that nothing catches

  /**
   * `sys.exit(0)` after the request, the error's own code for a caught
   * exception, and for an uncaught one the status 1 the Python interpreter
   * exits with, which is the same number as MissingArgument's.
   */
  function ExitStatus(o: Outcome): (code: nat)
    ensures code == 0 <==> o.Sent?
    ensures o.Failed? ==> code == ExitCode(o.error)
    ensures code <= 3
  {
    match o
    case Sent(_) => 0
    case Failed(e) => ExitCode(e)
    case Crashed => 1
  }
}
