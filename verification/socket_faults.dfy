/**
 * The client's transport fault handler (`Client::socketErrorHandler`): a total
 * mapping from socket error codes to either nothing or one user-visible message.
 */
module SocketFaults {

  /** The socket error codes the handler distinguishes; every other code is `OtherError`. */
  datatype SocketError = RemoteHostClosed | HostNotFound | ConnectionRefused | OtherError(code: int)

  /** What the handler does: emit nothing, or emit one error message. */
  datatype Report = Ignored | Emit(message: string)

  const HostNotFoundMessage: string := "Host not found. Please check host name."
  const ConnectionRefusedMessage: string :=
    "The connection refused by the peer. " + "Make sure that the server is running and check host name."
  const GenericPrefix: string := "The following error occured: "

  /** The fault classes a report can stand for; a generic fault carries the socket's description. */
  datatype FaultClass = Benign | Unresolved | Refused | Generic(description: string)

  /** The class of a fault, with `errorString` the socket's description of its last error. */
  function ClassOf(e: SocketError, errorString: string): FaultClass {
    match e
    case RemoteHostClosed => Benign
    case HostNotFound => Unresolved
    case ConnectionRefused => Refused
    case OtherError(_) => Generic(errorString)
  }

  /** The handler: remote close is ignored, the two connection failures get fixed messages, the rest a generic one. */
  function HandleSocketError(e: SocketError, errorString: string): (r: Report)
    ensures r == Ignored <==> e == RemoteHostClosed
    ensures e == HostNotFound ==> r == Emit(HostNotFoundMessage)
    ensures e == ConnectionRefused ==> r == Emit(ConnectionRefusedMessage)
    ensures e.OtherError? ==> r.Emit? && |r.message| >= |GenericPrefix|
                              && r.message[..|GenericPrefix|] == GenericPrefix
                              && r.message[|GenericPrefix|..] == errorString
  {
    match e
    case RemoteHostClosed => Ignored
    case HostNotFound => Emit(HostNotFoundMessage)
    case ConnectionRefused => Emit(ConnectionRefusedMessage)
    case OtherError(_) => Emit(GenericPrefix + errorString)
  }

  /** Reads a report back into the class of fault that produced it. */
  function Explain(r: Report): FaultClass {
    match r
    case Ignored => Benign
    case Emit(m) =>
      if m == HostNotFoundMessage then Unresolved
      else if m == ConnectionRefusedMessage then Refused
      else if |m| >= |GenericPrefix| && m[..|GenericPrefix|] == GenericPrefix then Generic(m[|GenericPrefix|..])
      else Generic(m)
  }

  /**
   * Every report names its fault class unambiguously: the two fixed messages
   * differ from each other and from every generic message, and a generic
   * message gives back the socket's description.
   */
  lemma ReportsAreDistinguishable(e: SocketError, errorString: string)
    ensures Explain(HandleSocketError(e, errorString)) == ClassOf(e, errorString)
  {
    var g := GenericPrefix + errorString;
    assert g[0] == 'T' && HostNotFoundMessage[0] == 'H';
    assert g[4] == 'f';
    assert ConnectionRefusedMessage[4] == 'c';
    assert g[..|GenericPrefix|] == GenericPrefix && g[|GenericPrefix|..] == errorString;
  }
}
