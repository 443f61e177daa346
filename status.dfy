/**
 * Startup status codes shared by both servers (the NIO server's status
 * class and the TCP server's exit-code class define the same five values)
 * and the host/port check both run before opening a listener.
 */
module Status {

  const Undefined: int := 0
  const ExitSuccess: int := 1
  const ExitFailure: int := -1
  const InvalidHostName: int := 100
  const InvalidListenerPort: int := 101

  /**
   * The status `startServer` settles on before it touches the network: an
   * empty host name is refused whatever the port, otherwise a port that is
   * not positive is refused; any other pair goes on to bind the listener,
   * with the status `ExitSuccess`.
   */
  function ValidateStartup(hostName: string, listenerPort: int): (status: int)
    ensures status == InvalidHostName <==> hostName == ""
    ensures status == InvalidListenerPort <==> hostName != "" && listenerPort <= 0
    ensures status == ExitSuccess <==> hostName != "" && listenerPort > 0
  {
    if hostName == "" then InvalidHostName
    else if listenerPort <= 0 then InvalidListenerPort
    else ExitSuccess
  }

  /**
   * The status field a server object holds once `run()` has returned.
   * `run()` discards what `startServer` returns (the method keeps its own
   * local status), so a refused host or port leaves the field as it was;
   * past the check the serving loop never ends normally, so `run()` can only
   * return through an exception, which records `ExitFailure`.
   */
  function StatusAfterRun(hostName: string, listenerPort: int, prior: int): (status: int)
    ensures hostName == "" || listenerPort <= 0 ==> status == prior
    ensures hostName != "" && listenerPort > 0 ==> status == ExitFailure
    ensures status == ExitSuccess ==> prior == ExitSuccess
  {
    if ValidateStartup(hostName, listenerPort) == ExitSuccess then ExitFailure else prior
  }

  /** A server whose host name is empty never reports `InvalidHostName` through its field. */
  lemma InvalidHostNeverRecorded(listenerPort: int)
    ensures StatusAfterRun("", listenerPort, Undefined) == Undefined
    ensures StatusAfterRun("", listenerPort, Undefined) != InvalidHostName
  {
  }
}
