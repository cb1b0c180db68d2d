# network-scanner: a Dafny model of the protocol prober

This project models the probing engine of `network_scanner.py`. The engine
takes a destination and a `Protocol` selector. It dispatches the selector to
one of four handlers: HTTP, HTTPS, FTP or SSH. The handler opens one TCP
connection to the protocol's fixed port. HTTP and HTTPS then send a
`HEAD / HTTP/1.1` request with a `Host` header; FTP and SSH only wait for the
server's banner. The handler reads once and reports `UP` when the read
returned bytes, and `DOWN` on an empty read or any socket error. The outcome
comes back as a `ScanResult` value, which has its own equality and `|`
operator.

Modules:

- `Wrappers` (wrappers.dfy): the `Option` type the decoders return.
- `Utf8` (utf8.dfy): the UTF-8 encoding that `str.encode()` applies to the
  request, with a strict decoder and proofs that each inverts the other.
- `HeadRequest` (head_request.dfy): the request text and bytes, plus a
  parser that reads the `Host` value back from them.
- `ScanResults` (scan_result.dfy): `Protocol`, `ScanResult` with its
  defaults, `__eq__`, `__ne__` and `__or__`. The response time is an
  abstract Python float (finite, ±infinity, NaN), so that float `==` and
  truthiness are exact.
- `NetworkScanner` (network_scanner.py's class): `scan`, the four handlers
  written as they appear in the source, and the one shared algorithm
  (`Probe`) they are proved to instantiate.

The socket is a parameter. A `Transport` value says whether the connection
opens, whether the send succeeds, what the read returns (at most 1024
bytes) and whether the closing of the socket raises. A probe returns its `ScanResult` and the list of socket actions it
performed: connect, send, read, close. This list is how the model states
"one connection", "sends nothing", "performs no socket action" and "always
closes". The elapsed time the source takes from the wall clock is an input
`elapsed`. It is copied into the result unchanged.

Behaviour of the code worth noting:

- An unsupported selector gets a result with the default time `0.0`
  (network_scanner.py:100), the same value an unexecuted result carries.
- Response times come from `time.time()` (network_scanner.py:108, 117),
  which is not monotonic. Nothing bounds them, so the model puts no bound on
  `elapsed`.
- The HTTPS handler sends the plain-text `HEAD` request to port 443 without
  TLS (network_scanner.py:130-132). The model does the same.

## Model

| member | source | states |
|---|---|---|
| `ScanResults.Defaults` | network_scanner.py:25-30 | A result built from protocol and destination alone has status `UNKNOWN` and response time `0.0`. |
| `ScanResults.FloatEqIsEquality` | network_scanner.py:48-49 | Float `==` on response times is value equality, except that NaN equals nothing. |
| `ScanResults.EqIffSameValue` | network_scanner.py:46-50 | Two results are `==` iff all four fields are the same and the time is not NaN. Changing any single field makes them unequal. |
| `ScanResults.EqForeignIsFalse` | network_scanner.py:46-50 | `==` against an object that is not a `ScanResult` is false, and so `!=` is true. |
| `ScanResults.NeNegatesEq` | network_scanner.py:61-62 | `!=` is the exact negation of `==`. Among results `==` is symmetric and transitive. |
| `ScanResults.NaNResultUnequalToItself` | network_scanner.py:46-50 | A result whose response time is NaN is `!=` to itself. |
| `ScanResults.Or` | network_scanner.py:64-67 | `a.__or__(b)` gives `a`'s time when it is non-zero and `b`'s otherwise. The result is zero only if both times are. The result is `NotImplemented` exactly when `b` is not a `ScanResult`. |
| `ScanResults.OrTimeLaws` | network_scanner.py:66 | The `or` of two times has `0.0` as its identity on both sides, and is associative and idempotent. It is zero iff both operands are. |
| `NetworkScanner.Port` | network_scanner.py:110-168 | Every protocol's port is one of 80, 443, 21 and 22. |
| `NetworkScanner.PortIdentifiesProtocol` | network_scanner.py:110-168 | Two protocols have the same port iff they are the same protocol. |
| `NetworkScanner.Probe` | network_scanner.py:102-176 | The shared handler algorithm reports the dispatched protocol, the destination and the given elapsed time. It reports `UP` iff the connection opened, any request was sent, the read returned at least one byte and closing the socket did not raise. In every other case it reports `DOWN`. |
| `NetworkScanner.HandlersAreProbe` | network_scanner.py:102-176 | Each of the four `execute` bodies equals the shared algorithm with its own protocol, port and send/no-send choice. |
| `NetworkScanner.Scan` | network_scanner.py:90-100 | The result carries the selector and destination and is never `UNKNOWN`. A supported selector gives `UP` or `DOWN`, as the classification above decides, with the measured time. A foreign selector gives `UNSUPPORTED` with time `0.0` and performs no socket action. |
| `NetworkScanner.ScanIsProbe` | network_scanner.py:90-98 | A supported selector is dispatched to the handler for that same protocol. |
| `NetworkScanner.ScanConnectsOnce` | network_scanner.py:109-110 | A probe calls `create_connection` exactly once, as its first action, for the protocol's port (HTTP 80, HTTPS 443, FTP 21, SSH 22), with the 10 s timeout. When that call raises, the probe does nothing else. |
| `NetworkScanner.ScanSendsOnlyTheRequest` | network_scanner.py:110-113 | The only bytes ever sent are the HEAD request for the destination. HTTP and HTTPS send them right after connecting, and a send happens iff the protocol is HTTP or HTTPS and the connection opened. FTP and SSH never send. |
| `NetworkScanner.ScanReadsOnceAfterSend` | network_scanner.py:109-114 | There is at most one read, of 1024 bytes, placed right after the connect or after the request. It happens iff the connection opened and any send succeeded. |
| `NetworkScanner.ScanReleasesSocket` | network_scanner.py:109-116 | A probe ends with exactly one close iff its connection opened; the handler's `with` block closes nothing when `create_connection` raised. A close that raises makes the probe `DOWN`. |
| `NetworkScanner.SendOutcomeMatters` | network_scanner.py:147-154 | An FTP or SSH probe does not depend on how a send would fare. An HTTP or HTTPS probe whose send fails is `DOWN`. |
| `NetworkScanner.EmptyReadIsDown` | network_scanner.py:113-114 | A peer that accepts and then closes without data gives `DOWN`. A single byte gives `UP`. |
| `NetworkScanner.OrSkipsUnsupported` | network_scanner.py:99-100 | An unsupported result keeps time `0.0`, so it is neutral for `__or__` on either side. |
| `HeadRequest.RequestText` | network_scanner.py:111 | The request is the `HEAD / HTTP/1.1` request line, then `Host: `, the destination, and CRLF CRLF. The destination sits between the two fixed parts. |
| `HeadRequest.ParseHostOfRequest` | network_scanner.py:111 | The `Host` value of the built request parses back to the destination iff the destination contains no CR, LF or NUL, the characters a field value may not hold. |
| `HeadRequest.ParseHostSound` | network_scanner.py:111 | Any text the parser accepts is the request built from the host it returns. |
| `HeadRequest.ParseHostIff` | network_scanner.py:111 | Parsing gives `d` iff the text is the request for `d` and `d` has no CR, LF or NUL. |
| `HeadRequest.RequestBytesLayout` | network_scanner.py:111-112 | The bytes sent are the ASCII prefix, then the UTF-8 destination, then CR LF CR LF. They decode back to the request text. |
| `Utf8.EncodeChar` | network_scanner.py:112 | A character encodes to 1 to 4 bytes: one leading byte followed by continuation bytes. ASCII characters encode as themselves. |
| `Utf8.Encode` | network_scanner.py:112 | A string's encoding is between 1 and 4 bytes per character long. It never starts with a continuation byte. |
| `Utf8.EncodeAppend` | network_scanner.py:112 | Encoding distributes over concatenation. |
| `Utf8.EncodeAscii` | network_scanner.py:112 | An ASCII string encodes byte for byte. |
| `Utf8.DecodeEncode` | network_scanner.py:112 | Decoding an encoding gives the original string back. |
| `Utf8.EncodeDecode` | network_scanner.py:112 | Any bytes the decoder accepts re-encode to the same bytes. |
| `Utf8.DecodeIffEncode` | network_scanner.py:112 | The decoder returns `s` for `bs` iff `bs` is the encoding of `s`. |

## Left out

- Socket I/O (`create_connection`, `sendall`, `recv`, the timeout itself) is abstracted to a `Transport` value. Partial reads, and how long a timeout takes, are not modelled.
- `create_connection` resolves the host and tries each resolved address in turn, each with the 10 s timeout, until one connects. One `Connect` action stands for that whole call, so the several TCP attempts it may make, and a total time above 10 s, are not modelled.
- Wall-clock timing (`time.time()` and the `* 1000` conversion) is left out. The elapsed time is an opaque input.
- `__str__`, `__repr__`, `__format__` and `__call__` are left out because they are float formatting.
- The `log_scan` decorator is left out because it prints a timestamped line.
- NetworkScanner.Scan: models the undecorated body of `scan` (network_scanner.py:90-100). The decorated call formats the result with `__format__`, which reads `self.protocol.name`. So for a foreign selector without a `.name` attribute (a string, an int, `None`), the decorated call raises `AttributeError` after building the result, and the caller never receives `UNSUPPORTED`.
- `__delattr__`, `__dir__`, `__getstate__`, `__init_subclass__`, `__reduce__`, `__sizeof__` and `__subclasses__` are left out. They are Python object mechanics with no effect on probing.
- The unused `Packet` namedtuple is left out.
- scanner.py is not part of this model because it only parses CLI arguments.
- Only `socket.error` is modelled as a failure. The source would let any other exception escape `scan`, for example one raised while encoding a host name for the resolver.
- A Python `str` can hold lone surrogates, which make `str.encode()` raise. Dafny `char`s are Unicode scalar values, so the model has no such destinations.
- Signed zero is collapsed. `-0.0` and `0.0` behave the same for `==` and `or`, apart from the sign of the value `|` returns.
- Status is a four-valued datatype, not an arbitrary string. The source's constructor would accept any string.
- Foreign selectors are compared by a tag. The model assumes they never compare equal to a `Protocol` member.
- ScanResults.Or: the model stops at `NotImplemented` and does not model Python's fallback to the right operand's `__ror__`, or the `TypeError` that follows.
