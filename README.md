# RCON client model

A Dafny model of `RCONcli` in rcon.py. It is a client for Valve's Source RCON
protocol. The model has three parts:

- **Packet codec.** A frame is a little-endian int32 `size`, the request id and the type, then the
  UTF-8 body and two NUL bytes. Building a frame (`create_packet`) and parsing one (the parse
  half of `receive_packet`) are pure functions over bytes. The int32 codec is two's complement.
  UTF-8 is strict, as in the Unicode standard. Python's `str.strip()` and `str.strip('\x00')` are
  modelled on their exact character sets.
- **Authentication.** `serverdata_auth` sends one type-3 frame and gives its verdict on one reply.
- **Command exchange.** `send_command` sends one type-2 frame. It then runs the empty-packet retry
  loop over the replies the server sends.

The session object is the class `Client.RconClient`. Its `socket` field is `None` until `connect`
runs. After that it holds a `Handle`, which records:

- whether the socket is connected or closed;
- every frame sent through it;
- the queue of what the next `receive_packet` calls return.

Outside effects become parameters:

- the request id that `secrets.randbelow` would draw;
- how `socket.connect` ends: a failed host lookup, or the TCP connect succeeding, timing out or being refused;
- what the server sends, one item per `recv(4096)`. An item is bytes, silence when the 10-second
  readiness wait expires, or a reset that makes `recv` raise `ConnectionResetError`.

The model's modules:

- `Outcomes`: result and error types, and the exact message strings.
- `Wire`: bytes, int32 little-endian, and Python slicing.
- `Utf8`: the UTF-8 encoder and decoder.
- `Text`: `strip`.
- `Codec`: frames.
- `Exchange`: the reply queue, the authentication decision, the retry loop, and a loop-free
  reference definition of the command outcome.
- `Client`: the class.

Points where rcon.py behaves differently from what a reader might expect:

- **Request id range.** `randbelow(2147483647) + 1` lies in [1, 2^31 - 1].
- **`disconnect`.** It closes the socket but leaves it in the field.
- **`connect`.** It stores the new socket before the connection is attempted. A failed connect
  therefore leaves an unconnected socket in the field.
- **`'Authentication failed!'`.** The check in `__enter__` can never raise it. After `connect`,
  `serverdata_auth` always finds a socket, so it never returns False. A rejected password surfaces
  as its `ValueError("Incorrect password")` instead.
- **Unauthenticated commands.** The code does not reject commands sent before authentication.
  `send_command` guards only on the `socket` field.
- **Retry exhaustion.** The loop stops on a retry counter of three, whatever the fourth reply holds.

## Model

| member | source | states |
|---|---|---|
| Wire.EncodeInt32 | rcon.py:45 | `struct.pack('<i', x)` is four bytes, and the last byte has its top bit set exactly when x is negative |
| Wire.DecodeInt32 | rcon.py:54 | `struct.unpack('<i', b)` of four bytes is an int32, negative exactly when the top bit of the last byte is set |
| Wire.Int32RoundTrip | rcon.py:45 | for every int32 x, unpacking the packed bytes of x gives x |
| Wire.Int32BytesRoundTrip | rcon.py:54 | for every four bytes b, packing the unpacked value of b gives b back, so the int32 codec is a bijection |
| Wire.EncodeInt32Injective | rcon.py:45 | distinct int32 values are packed to distinct bytes |
| Wire.ClampIndex | rcon.py:55 | a Python slice index lands in [0, n] |
| Wire.PySlice | rcon.py:55 | Python's `s[start:stop]`: never longer than s, and from a valid start it is the run of s beginning at start; `PySliceBounds` gives its length for both signs of stop |
| Wire.PySliceBounds | rcon.py:55 | a slice from a valid start is the consecutive run s[start..start+len] with len = min(stop, n) - start for a non-negative stop, and len = n + stop - start for a negative stop (never negative) |
| Utf8.EncodeChar | rcon.py:43 | each character encodes to one to four bytes, and to one byte exactly when it is ASCII |
| Utf8.Encode | rcon.py:43 | `str.encode('utf-8')` yields between one and four bytes per character |
| Utf8.Decode | rcon.py:55 | `bytes.decode('utf-8')`, None for its UnicodeDecodeError: the empty input decodes to the empty string and a decoded string is never longer than its bytes; `DecodeEncode` and `EncodeDecode` characterise it as the exact inverse of `Encode` |
| Utf8.DecodeChar | rcon.py:55 | a well-formed leading sequence is read as one to four bytes, never past the buffer |
| Utf8.EncodeAppend | rcon.py:43 | encoding distributes over concatenation |
| Utf8.DecodeEncode | rcon.py:43-55 | decoding the encoding of any string gives the string back |
| Utf8.EncodeDecode | rcon.py:55 | any byte string that decodes is the encoding of the string it decodes to, so the decoder accepts one spelling per string |
| Text.LeadingRun | rcon.py:55 | the longest prefix made of the chosen characters: all of it is in the set, and the next character is not |
| Text.TrailingRun | rcon.py:55 | the longest suffix made of the chosen characters, in the same sense |
| Text.Strip | rcon.py:55 | `strip(cs)` returns the stretch of s that starts after the leading run; everything after it is in cs; the result neither starts nor ends with a character of cs |
| Text.StripKeeps | rcon.py:55 | a string whose ends are outside cs is left unchanged |
| Text.StripShrinks | rcon.py:55 | k1 leading and k2 trailing characters of cs cost at least k1 + k2 characters, or the whole string |
| Codec.CleanBody | rcon.py:55 | `.strip().strip('\x00')`: never longer than the text, and never starts or ends with NUL; `Strip`'s ensures characterise each step and `CleanPaddedBody` its effect on a padded body |
| Codec.DeclaredSize | rcon.py:54 | `response_size`, the first header field, is an int32 |
| Codec.BodyBytes | rcon.py:55 | `response[12:response_size + 4]`: a run of the buffer that starts at byte 12 and never reaches past its end; `BodyWindow` gives where it ends |
| Codec.CreatePacket | rcon.py:41-46 | struct.error exactly when the type or the size field does not fit an int32; otherwise the frame is 14 + n bytes long, its three header fields unpack to 10 + n, the request id and the type, the n body bytes are the UTF-8 of the body, and the last two bytes are 0 |
| Codec.ParsePacket | rcon.py:52-59 | a buffer shorter than 12 bytes, and only such a buffer, raises the damaged-packet ConnectionError; the only other failure is a UnicodeDecodeError; a parsed packet carries the three unpacked header fields and the cleaned text of the body slice |
| Codec.BodyWindow | rcon.py:55 | the body bytes are buf[12..e] with e never past the buffer; a non-negative size + 4 is clamped into [12, len], and a negative one counts from the end |
| Codec.ParseIgnoresTail | rcon.py:55 | once a buffer holds the whole declared frame, bytes appended after it never change the parse |
| Codec.CleanPaddedBody | rcon.py:45-55 | `.strip().strip('\x00')` of body + two NULs is the body if and only if the body is empty or starts with neither whitespace nor NUL and does not end with NUL |
| Codec.FrameBody | rcon.py:44-55 | the slice the parser takes from a created frame is the UTF-8 of the body followed by two NULs |
| Codec.ParseCreated | rcon.py:41-59 | parsing a created frame gives size 10 + n, the sent request id, the sent type, and the cleaned padded body |
| Codec.ParseRoundTrip | rcon.py:41-59 | parsing a created frame recovers id, type and size exactly, and recovers the body if and only if it survives cleaning |
| Exchange.ReadItem | rcon.py:49-62 | silence is the 10-second TimeoutError, a reset is recv's ConnectionResetError, bytes are parsed, and every failure is one of these four read errors: the two above, the damaged-packet ConnectionError and the UnicodeDecodeError |
| Exchange.Decoded | rcon.py:48-62 | the reply queue has one entry per recv, in order, each what receive_packet returns for it |
| Exchange.DecodedReadErrorsOnly | rcon.py:48-62 | every error in a decoded queue is one receive_packet raises |
| Exchange.ReplyAt | rcon.py:49-62 | the k-th reply while the queue lasts; once the server has sent nothing more it is the 10-second TimeoutError |
| Exchange.AuthDecision | rcon.py:68-72 | True exactly when the first reply is a packet whose id is not -1; the "Incorrect password" ValueError exactly when it is -1; a failed read propagates its error; never False. The id that was sent is not an input |
| Exchange.RetryLoop | rcon.py:84-90 | the while loop from (response, retries) and the counter check after it: the counter only grows and never passes three; `RetryLoopRest` gives the queue it leaves, and `RetryLoopFrom` and `ExchangeMatchesReference` tie it to the reference |
| Exchange.RetryLoopRest | rcon.py:84-87 | each iteration of the loop consumes exactly one reply, and nothing else in it reads |
| Exchange.CommandExchange | rcon.py:79-90 | the first read and the loop: at most three iterations, and exactly one reply more than iterations is consumed; `ExchangeMatchesReference` proves it equal to the reference, and `SendCommand` is proved against it |
| Exchange.ReferenceOutcome | rcon.py:79-91 | the loop-free statement of the outcome: with k the number of leading empty acknowledgements, the outcome is the body of reply k exactly when k is below three and reply k is a packet, a failed reply k raises its error, and three acknowledgements followed by a packet raise "not responding"; these cases fix the result |
| Exchange.SkippedAcks | rcon.py:84-87 | the number of leading empty type-2 replies is at most three, every reply before it is one, and when it is below three the reply at that position is not one |
| Exchange.RetryLoopFrom | rcon.py:84-91 | the loop entered after j empty acknowledgements ends with the reference outcome, after SkippedAcks iterations |
| Exchange.ExchangeMatchesReference | rcon.py:79-91 | the exchange equals the loop-free reference: a failed read raises its error, three empty acknowledgements raise "not responding", fewer leave the next reply's body as the result, and exactly SkippedAcks + 1 replies are consumed |
| Exchange.AtMostFourReads | rcon.py:79-91 | the counter never passes three, at most four replies are read, and the queue left is what follows them |
| Exchange.ExhaustionIff | rcon.py:84-90 | "Server is not responding properly." is raised if and only if the first three replies are empty type-2 packets and the fourth read returns a packet, whatever it holds |
| Exchange.SuccessIff | rcon.py:84-91 | the command succeeds if and only if the reply after the leading empty acknowledgements is among the first three and is a packet; the result is that reply's body, the reply is not an empty acknowledgement, and the loop ran once per acknowledgement |
| Exchange.ReadErrorPropagates | rcon.py:79-90 | for every queue, a failed read at the deciding position raises its own error, and every error other than "not responding" comes from a read |
| Client.Transmit | rcon.py:67 | the model's `socket.send`: on a socket that never connected or was closed it raises OSError; on a connected socket it appends the whole frame to what was sent |
| Client.RconClient.constructor | rcon.py:10-14 | host, port and password are stored, and there is no socket |
| Client.RconClient.Connect | rcon.py:25-34 | the socket is stored before connecting, so it is present afterwards, connected or not; the address is checked in CPython's order: a port beyond a C int raises OverflowError, a failed host lookup raises "Connection error: " followed by the reason, and only then does a port outside 0-65535 raise OverflowError, which neither except clause catches; for a resolved host and a valid port, a timeout raises "Connection timed out!" and a refusal raises "Connection error: " followed by the reason |
| Client.RconClient.Disconnect | rcon.py:36-39 | a present socket is closed and stays in the field; no socket stays no socket |
| Client.RconClient.ReceivePacket | rcon.py:48-62 | the next reply is returned and removed from the queue, and the 10-second TimeoutError is raised once the server has nothing more |
| Client.RconClient.Authenticate | rcon.py:64-73 | without a socket it returns False and sends nothing; otherwise it sends exactly the one type-3 frame carrying the password, reads one reply, and returns AuthDecision of the queue |
| Client.RconClient.SendCommand | rcon.py:75-91 | without a socket it sends and reads nothing; otherwise it sends exactly the one type-2 frame carrying the command, consumes exactly rereads + 1 replies, and ends as CommandExchange of the queue (the loop is proved against it) |
| Client.RconClient.Enter | rcon.py:16-20 | the "Authentication failed!" error is never raised; a failed connect leaves an unconnected socket and raises connect's own error, in connect's order (OverflowError for a port beyond a C int, "Connection error: " and the reason for a host that does not resolve, OverflowError for a port outside 0-65535, "Connection timed out!", or "Connection error: " and the reason for a refusal); after a connect, the result is success exactly when the authentication decision is True, and it is that decision's error otherwise |

## Left out

- Real I/O is left out and becomes parameters. This covers `socket.socket`, `settimeout`, the TCP
  handshake, `select`, `send` and `recv`. Connect outcomes and server data are inputs, and timing
  is not modelled.
- `send` is modelled as sending the whole frame. Partial sends are not modelled.
- Client.Transmit never fails on a connected socket. In Python, `send` on a connected socket whose
  peer has reset raises `BrokenPipeError` or `ConnectionResetError`. Such a failure is not an
  input of the model, so `Authenticate` and `SendCommand` never raise it.
- Exchange.ReadItem covers only one way for `recv` to raise on a connected socket:
  `ConnectionResetError` after a server reset. Other socket errors from `recv` are not modelled.
- Each `recv(4096)` is one queue item given by the caller. TCP splitting and coalescing are not
  modelled, and neither is the 4096-byte cap on one item.
- `secrets.randbelow` is left out. The request id is a parameter in [1, 2^31 - 1].
- Logging is left out: configuration, the success messages, the warning on each retry, and the
  logged command result.
- `__exit__` and Python's `with` semantics are left out. The model makes no claim that the socket
  is released on failure.
- The `__main__` usage example is left out.
- Lone surrogates are left out. A Dafny `char` is a Unicode scalar value, so the
  `UnicodeEncodeError` that `str.encode` raises on a lone surrogate cannot arise.
- Non-string bodies and non-integer packet types are outside the model; its types rule them out.
  In Python, `.encode('utf-8')` on a non-string raises `AttributeError`, and `struct.pack` raises
  `struct.error` ("required argument is not an integer") for a non-integer type.
- `Outcomes.Error`: `UnicodeDecodeError` and `ConnectionResetError` are their own constructors.
  Python makes the first a subclass of `ValueError` and the second a subclass of
  `ConnectionError`. The model does not capture these subclass relations.
- `Outcomes.Error`: `OSError` stands for `OSError` and its subclasses. On Linux, `send` on a socket
  that never connected raises `BrokenPipeError`, and `send` on a closed socket raises a plain
  `OSError`; the model does not tell these apart.
- Client.RconClient.Connect takes a C int to be 32 bits wide, as on Linux, for its first port check.
  The host name is not an input: its lookup appears only through the `Unresolved` connect outcome.
- Client.RconClient.ReceivePacket requires a connected socket. Its callers reach it only after a
  successful send. What `select` does on an unconnected or closed socket is not modelled.
- Client.RconClient.ReceivePacket does not run the parser itself. The socket's queue holds each
  recv already decoded: `Connect` applies `Exchange.Decoded` to the server's data. The parse
  depends only on the bytes of that one recv, so the replies are the same. The model does not
  capture when the parse happens.
- Client.RconClient.SendCommand returns the body that `send_command` logs, and Python returns
  None. `Ok(None)` stands for the no-socket case.
- Exchange.RetryLoopFrom and the other exchange lemmas count "rereads" as loop iterations entered,
  which is one warning each. This differs from Python's `retries` variable in one case: a read
  that raises inside the loop stops Python's counter one short.
