/**
 * `NetworkScanner.scan` and its four per-protocol handlers.
 *
 * The socket is not modelled; instead a `Transport` value says how the
 * network answers each step a handler may take (open the connection with one
 * `create_connection` call, send, read, close), and a probe returns, beside
 * its `ScanResult`, the socket actions it performed in order. Every `socket.error` (refusal, timeout, a failed name
 * lookup) is one failed step. The elapsed time, which the source measures
 * with the wall clock, is an input.
 */
module NetworkScanner {
  import opened Utf8
  import opened ScanResults
  import opened HeadRequest

  /** The connection timeout, in seconds, every handler passes to `create_connection`. */
  const ConnectTimeout: nat := 10

  /** The buffer size of the single `recv` call. */
  const RecvBufferSize: nat := 1024

  /** What one `recv(1024)` can return: at most the buffer size, empty on orderly close. */
  type Chunk = s: seq<byte> | |s| <= RecvBufferSize

  /** The outcome of the read: it raised, or it returned a chunk. */
  datatype RecvOutcome = RecvFailed | Received(data: Chunk)

  /**
   * How the network answers the steps of one probe, each consulted only if
   * reached. `closeSucceeds` is the outcome of the `close()` the `with` block
   * makes on exit; it runs inside the `try`, so a failing close is caught
   * like any other socket error.
   */
  datatype Transport = Transport(connects: bool, sendSucceeds: bool, recv: RecvOutcome, closeSucceeds: bool)

  /** One socket operation, as the handler issues it. */
  datatype Action =
    | Connect(host: string, port: nat, timeout: nat)
    | SendAll(data: seq<byte>)
    | Recv(bufferSize: nat)
    | Close

  /** A finished probe: the result and the socket actions performed, in order. */
  datatype Execution = Execution(result: ScanResult, actions: seq<Action>)

  /** The well-known port each protocol is probed on. */
  function Port(p: Protocol): (port: nat)
    ensures port in {80, 443, 21, 22}
  {
    match p
    case HTTP => 80
    case HTTPS => 443
    case FTP => 21
    case SSH => 22
  }

  /** No two protocols share a port, so the port alone tells which handler ran. */
  lemma PortIdentifiesProtocol(p: Protocol, q: Protocol)
    ensures Port(p) == Port(q) <==> p == q
  {
  }

  /** HTTP and HTTPS servers wait for a request; FTP and SSH servers speak first. */
  predicate SendsRequest(p: Protocol) {
    p == HTTP || p == HTTPS
  }

  /**
   * The one condition under which a probe of `p` reports `UP`: the connection
   * opened, the request (if any) went out, the read returned at least one
   * byte, and closing the socket did not raise.
   */
  predicate Answers(p: Protocol, t: Transport) {
    && t.connects
    && (SendsRequest(p) ==> t.sendSucceeds)
    && t.recv.Received?
    && |t.recv.data| > 0
    && t.closeSucceeds
  }

  /**
   * The algorithm all four handlers share, parametrised by protocol: connect
   * to the protocol's port, send the HEAD request for HTTP and HTTPS, read
   * once, and close the socket on leaving the `with` block however it is
   * left. Any failure gives `DOWN`, as does an empty read; a failing close
   * overrides the status the read set.
   */
  function Probe(p: Protocol, destination: string, t: Transport, elapsed: Float): (e: Execution)
    ensures e.result.protocol == Supported(p) && e.result.destination == destination
    ensures e.result.responseTime == elapsed
    ensures e.result.status == Up <==> Answers(p, t)
    ensures e.result.status == Down <==> !Answers(p, t)
  {
    var connect := Connect(destination, Port(p), ConnectTimeout);
    var send := if SendsRequest(p) then [SendAll(RequestBytes(destination))] else [];
    if !t.connects then
      Execution(ScanResult(Supported(p), destination, Down, elapsed), [connect])
    else if SendsRequest(p) && !t.sendSucceeds then
      Execution(ScanResult(Supported(p), destination, Down, elapsed), [connect] + send + [Close])
    else
      var status := if t.recv.Received? && |t.recv.data| > 0 && t.closeSucceeds then Up else Down;
      Execution(ScanResult(Supported(p), destination, status, elapsed),
                [connect] + send + [Recv(RecvBufferSize), Close])
  }

  /** `_http_scan`'s `execute`. */
  function HttpScan(destination: string, t: Transport, elapsed: Float): Execution {
    var connect := Connect(destination, 80, 10);
    if !t.connects then
      Execution(ScanResult(Supported(HTTP), destination, Down, elapsed), [connect])
    else
      var request := SendAll(Encode("HEAD / HTTP/1.1\r\nHost: " + destination + "\r\n\r\n"));
      if !t.sendSucceeds then
        Execution(ScanResult(Supported(HTTP), destination, Down, elapsed), [connect, request, Close])
      else
        var status := match t.recv
          case RecvFailed => Down
          case Received(response) => if |response| > 0 then Up else Down;
        var status := if t.closeSucceeds then status else Down;
        Execution(ScanResult(Supported(HTTP), destination, status, elapsed),
                  [connect, request, Recv(1024), Close])
  }

  /** `_https_scan`'s `execute`: the HTTP handler on port 443. */
  function HttpsScan(destination: string, t: Transport, elapsed: Float): Execution {
    var connect := Connect(destination, 443, 10);
    if !t.connects then
      Execution(ScanResult(Supported(HTTPS), destination, Down, elapsed), [connect])
    else
      var request := SendAll(Encode("HEAD / HTTP/1.1\r\nHost: " + destination + "\r\n\r\n"));
      if !t.sendSucceeds then
        Execution(ScanResult(Supported(HTTPS), destination, Down, elapsed), [connect, request, Close])
      else
        var status := match t.recv
          case RecvFailed => Down
          case Received(response) => if |response| > 0 then Up else Down;
        var status := if t.closeSucceeds then status else Down;
        Execution(ScanResult(Supported(HTTPS), destination, status, elapsed),
                  [connect, request, Recv(1024), Close])
  }

  /** `_ftp_scan`'s `execute`: read the banner on port 21, send nothing. */
  function FtpScan(destination: string, t: Transport, elapsed: Float): Execution {
    var connect := Connect(destination, 21, 10);
    if !t.connects then
      Execution(ScanResult(Supported(FTP), destination, Down, elapsed), [connect])
    else
      var status := match t.recv
        case RecvFailed => Down
        case Received(response) => if |response| > 0 then Up else Down;
      var status := if t.closeSucceeds then status else Down;
      Execution(ScanResult(Supported(FTP), destination, status, elapsed), [connect, Recv(1024), Close])
  }

  /** `_ssh_scan`'s `execute`: read the banner on port 22, send nothing. */
  function SshScan(destination: string, t: Transport, elapsed: Float): Execution {
    var connect := Connect(destination, 22, 10);
    if !t.connects then
      Execution(ScanResult(Supported(SSH), destination, Down, elapsed), [connect])
    else
      var status := match t.recv
        case RecvFailed => Down
        case Received(response) => if |response| > 0 then Up else Down;
      var status := if t.closeSucceeds then status else Down;
      Execution(ScanResult(Supported(SSH), destination, status, elapsed), [connect, Recv(1024), Close])
  }

  /**
   * `NetworkScanner.scan`: dispatch on the selector; anything that is not a
   * `Protocol` member gives an `UNSUPPORTED` result with the default time and
   * touches no socket.
   */
  function Scan(selector: Selector, destination: string, t: Transport, elapsed: Float): (e: Execution)
    ensures e.result.protocol == selector && e.result.destination == destination
    ensures e.result.status != Unknown
    ensures selector.Foreign? ==> e.result.status == Unsupported && e.result.responseTime == Zero
    ensures selector.Foreign? <==> e.actions == []
    ensures selector.Supported? ==> e.result.responseTime == elapsed
    ensures e.result.status == Up <==> selector.Supported? && Answers(selector.protocol, t)
    ensures e.result.status == Down <==> selector.Supported? && !Answers(selector.protocol, t)
  {
    match selector
    case Supported(HTTP) => HandlersAreProbe(HTTP, destination, t, elapsed); HttpScan(destination, t, elapsed)
    case Supported(HTTPS) => HandlersAreProbe(HTTPS, destination, t, elapsed); HttpsScan(destination, t, elapsed)
    case Supported(FTP) => HandlersAreProbe(FTP, destination, t, elapsed); FtpScan(destination, t, elapsed)
    case Supported(SSH) => HandlersAreProbe(SSH, destination, t, elapsed); SshScan(destination, t, elapsed)
    case Foreign(_) => Execution(ScanResult(selector, destination, Unsupported), [])
  }

  /** Each of the four handlers is the shared algorithm instantiated with its protocol. */
  lemma HandlersAreProbe(p: Protocol, destination: string, t: Transport, elapsed: Float)
    ensures p == HTTP ==> HttpScan(destination, t, elapsed) == Probe(p, destination, t, elapsed)
    ensures p == HTTPS ==> HttpsScan(destination, t, elapsed) == Probe(p, destination, t, elapsed)
    ensures p == FTP ==> FtpScan(destination, t, elapsed) == Probe(p, destination, t, elapsed)
    ensures p == SSH ==> SshScan(destination, t, elapsed) == Probe(p, destination, t, elapsed)
  {
    assert "HEAD / HTTP/1.1\r\nHost: " + destination + "\r\n\r\n" == RequestText(destination);
  }

  /** A supported selector is dispatched to the shared algorithm for its protocol. */
  lemma ScanIsProbe(p: Protocol, destination: string, t: Transport, elapsed: Float)
    ensures Scan(Supported(p), destination, t, elapsed) == Probe(p, destination, t, elapsed)
  {
    HandlersAreProbe(p, destination, t, elapsed);
  }

  /**
   * A probe calls `create_connection` exactly once, as its first action, for
   * the protocol's port with the ten-second timeout; the handler itself never
   * retries, and when the call raises it does nothing else.
   */
  lemma ScanConnectsOnce(p: Protocol, destination: string, t: Transport, elapsed: Float)
    ensures var acts := Scan(Supported(p), destination, t, elapsed).actions;
      && |acts| >= 1
      && acts[0] == Connect(destination, Port(p), ConnectTimeout)
      && (forall i :: 1 <= i < |acts| ==> !acts[i].Connect?)
      && (!t.connects ==> acts == [Connect(destination, Port(p), ConnectTimeout)])
  {
    ScanIsProbe(p, destination, t, elapsed);
  }

  /**
   * The only bytes ever sent are the HEAD request for the destination, sent
   * by HTTP and HTTPS right after a successful connect and never after a
   * failed one; FTP and SSH send nothing.
   */
  lemma ScanSendsOnlyTheRequest(p: Protocol, destination: string, t: Transport, elapsed: Float)
    ensures var acts := Scan(Supported(p), destination, t, elapsed).actions;
      && (forall i :: 0 <= i < |acts| && acts[i].SendAll? ==>
            i == 1 && SendsRequest(p) && acts[i].data == RequestBytes(destination))
      && (SendsRequest(p) && t.connects ==> acts[1] == SendAll(RequestBytes(destination)))
      && ((exists i :: 0 <= i < |acts| && acts[i].SendAll?) <==> SendsRequest(p) && t.connects)
  {
    ScanIsProbe(p, destination, t, elapsed);
    var acts := Scan(Supported(p), destination, t, elapsed).actions;
    if SendsRequest(p) && t.connects {
      assert acts[1].SendAll?;
    }
  }

  /**
   * The single read asks for 1024 bytes and comes only after a successful
   * send: straight after connecting for FTP and SSH, after the request for
   * HTTP and HTTPS.
   */
  lemma ScanReadsOnceAfterSend(p: Protocol, destination: string, t: Transport, elapsed: Float)
    ensures var acts := Scan(Supported(p), destination, t, elapsed).actions;
      && (forall i :: 0 <= i < |acts| && acts[i].Recv? ==>
            && acts[i].bufferSize == RecvBufferSize
            && i == (if SendsRequest(p) then 2 else 1))
      && ((exists i :: 0 <= i < |acts| && acts[i].Recv?)
          <==> t.connects && (SendsRequest(p) ==> t.sendSucceeds))
  {
    ScanIsProbe(p, destination, t, elapsed);
    var acts := Scan(Supported(p), destination, t, elapsed).actions;
    if t.connects && (SendsRequest(p) ==> t.sendSucceeds) {
      var i := if SendsRequest(p) then 2 else 1;
      assert acts[i].Recv?;
    }
  }

  /**
   * The socket is released on every path that acquired it: a connected probe
   * ends with exactly one close, and when `create_connection` raised the
   * handler's `with` block closes nothing. A close that raises makes the
   * probe `DOWN`, whatever the read returned.
   */
  lemma ScanReleasesSocket(p: Protocol, destination: string, t: Transport, elapsed: Float)
    ensures var acts := Scan(Supported(p), destination, t, elapsed).actions;
      && (t.connects <==> acts[|acts| - 1] == Close)
      && (forall i :: 0 <= i < |acts| - 1 ==> acts[i] != Close)
    ensures !t.closeSucceeds ==> Scan(Supported(p), destination, t, elapsed).result.status == Down
  {
    ScanIsProbe(p, destination, t, elapsed);
  }

  /**
   * FTP and SSH never send, so how a send would have fared does not affect
   * them; HTTP and HTTPS report `DOWN` whenever the send fails.
   */
  lemma SendOutcomeMatters(p: Protocol, destination: string, t: Transport, elapsed: Float)
    ensures !SendsRequest(p) ==>
      Scan(Supported(p), destination, t, elapsed)
      == Scan(Supported(p), destination, t.(sendSucceeds := !t.sendSucceeds), elapsed)
    ensures SendsRequest(p) && !t.sendSucceeds ==>
      Scan(Supported(p), destination, t, elapsed).result.status == Down
  {
    ScanIsProbe(p, destination, t, elapsed);
    ScanIsProbe(p, destination, t.(sendSucceeds := !t.sendSucceeds), elapsed);
  }

  /**
   * The boundary case: a peer that accepts the connection and closes it
   * without a byte is `DOWN`, while any one byte makes it `UP` (every other
   * step succeeding).
   */
  lemma EmptyReadIsDown(p: Protocol, destination: string, elapsed: Float, data: Chunk)
    ensures Scan(Supported(p), destination, Transport(true, true, Received([]), true), elapsed).result.status == Down
    ensures |data| > 0 ==>
      Scan(Supported(p), destination, Transport(true, true, Received(data), true), elapsed).result.status == Up
  {
  }

  /**
   * Since an unsupported result keeps the default time `0.0`, `|` with it on
   * the left yields the other operand's time, and on the right leaves the
   * left operand's time unchanged.
   */
  lemma OrSkipsUnsupported(tag: string, destination: string, t: Transport, elapsed: Float, other: ScanResult)
    ensures var u := Scan(Foreign(tag), destination, t, elapsed).result;
      && Or(u, AScanResult(other)) == Time(other.responseTime)
      && Or(other, AScanResult(u)) == Time(other.responseTime)
  {
  }
}
