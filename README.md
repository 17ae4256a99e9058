# nes_sockets, modelled in Dafny

nes_sockets is a small C++ networking library. This project models its core and proves properties of the model:

- **Byte operations.** Base64 encoding and decoding, and fixed-width integer to byte-array conversion in both byte orders (`byte_op.cpp`).
- **Receive helpers.** The growing retry interval, and the loops that receive until a delimiter, up to an exact size, at least a size, or the rest of a size (`socket_util.cpp`).
- **Native sockets.** The POSIX socket of the module build (`unix_socket_impl.cpp`), the older POSIX socket (`unix_socket.cpp`) and the WinSock2 socket (`win_socket.cpp`). Each covers:
  - the handle's life cycle: construction, move, move assignment and destruction;
  - `listen`, `has_client`, `accept`, `connect`, `disconnect`, the chunked `send` loop and the draining `receive` loop.
- **WinSock library counter.** The instance counter that starts and stops the WinSock library (`inicializa_WSA` / `finaliza_WSA`).
- **TLS client socket.** The lazy handshake, the write loop and the block-reading loop, the two-sided handshake between two sockets, and the reference count of the shared OpenSSL context (`tls_socket.cpp`).
- **TLS server socket.** The certificate and key checks, the listener and the accept path (`tls_socket_serv.cpp`).

The model's modules:

| module | file | role |
|---|---|---|
| `Common` | `common.dfy` | bytes, `Result`/`Outcome`, the library's error kinds, and the `Config` constants |
| `Base64`, `Endian` | `base64.dfy`, `endian.dfy` | `byte_op.cpp` |
| `SocketUtil` | `socket_util.dfy` | `socket_util.cpp` |
| `NativeOs` | `native_os.dfy` | the descriptor table (`Kernel`), the answers the OS gives, and the socket mode |
| `NativeSend`, `NativeReceive` | `native_send.dfy`, `native_recv.dfy` | the send and receive loops the three native sockets share |
| `UnixModuleSocket` | `unix_socket_impl.dfy` | `unix_socket_impl.cpp` |
| `UnixSocket` | `unix_socket.dfy` | `unix_socket.cpp` |
| `WinSocket` | `win_socket.dfy` | `win_socket.cpp` |
| `TlsSocket` | `tls_socket.dfy` | `tls_socket.cpp` |
| `TlsServer` | `tls_socket_serv.dfy` | `tls_socket_serv.cpp` |

The operating system and OpenSSL are not modelled. What they answer is a parameter:

- Each call answers from a script (a sequence).
- Past the end of its script the OS keeps answering "would block" and OpenSSL keeps asking to be called again.
- Every step of `listen` and `connect` that can fail is a flag.

The C++ classes become Dafny classes whose methods update their fields:

- A `Kernel` object records the open descriptors. Every socket method states which descriptors it opens or closes.
- The two process-wide counters are shared objects, the WinSock `Library` and the OpenSSL `Context`. Each counts its holders: a ghost set of the objects that took a reference and have not released it.
- The sleeps between retries become a bound on the number of calls:
  - the retry count for the native `send`;
  - the elapsed time in steps for the TLS handshake, write and read.
- The constants of `cfg.h` are the parameter `Config`: the step interval, the largest interval, the packet size, the retry limit and the I/O timeout.

The source throws exceptions on errors. Here each one is the `Fail` / `Err` value of the kind the source throws.

## Model

| member | source | states |
|---|---|---|
| Base64.AlphabetIsSymbols | src/byte_op.cpp:14-22 | the 64-entry alphabet is A-Z, a-z, 0-9, '+', '/' in that order |
| Base64.IndexOfIsSearch | src/byte_op.cpp:105-109 | the decoder's lookup finds the one position of a symbol, and fails exactly for characters outside the alphabet |
| Base64.CountsByRemainder | src/byte_op.cpp:35-38 | n bytes give 4(n/3) symbols plus 0, 2 or 3 by n mod 3, and the padded size is 4 times n/3 rounded up |
| Base64.PaddingIsShort | src/byte_op.cpp:35-82 | without line breaks the padding is at most two '=', none exactly when n is a multiple of 3, and the padded size is a multiple of 4 |
| Base64.ToBase64 | src/byte_op.cpp:29-85 | the encoding loop yields the symbols of the 6-bit groups, a line break after every 76 symbols when asked, then '=' up to the estimated size |
| Base64.EncodedLength | src/byte_op.cpp:29-85 | without line breaks the output is the symbols followed only by '=', of length 4 times n/3 rounded up with padding, and has no '=' without padding |
| Base64.EncodedLineBreaks | src/byte_op.cpp:76-77 | with line breaks on, the character at position j is a line break exactly when j+1 is a multiple of 77 |
| Base64.EncodedCharacters | src/byte_op.cpp:29-85 | the output holds only alphabet symbols, '=' and line breaks |
| Base64.StripWrap | src/byte_op.cpp:76-90 | removing the CR/LF characters the length check skips undoes the line wrapping |
| Base64.FromBase64 | src/byte_op.cpp:87-130 | the decoding loop yields the length error, then the alphabet error at the first non-symbol before '=', otherwise the bytes packed from the 6-bit values |
| Base64.DecodedLength | src/byte_op.cpp:96-127 | a successful decode yields 3/4 as many bytes as there are characters before the first '=' |
| Base64.PhasesInvert | src/byte_op.cpp:54-126 | each decoding phase reassembles the byte that the matching encoding phases split |
| Base64.UnpackValues | src/byte_op.cpp:49-127 | unpacking the 6-bit values of the encoding of d gives d back |
| Base64.DecodeSymbolsThenPad | src/byte_op.cpp:87-130 | symbols followed by '=' characters decode to the bytes of the symbols alone |
| Base64.RoundTripAsWritten | src/byte_op.cpp:29-130 | without line breaks, decoding the encoding gives back every byte sequence, with or without padding |
| Base64.RoundTrip | src/byte_op.cpp:29-130 | the corrected pair round-trips every byte sequence, with or without line breaks and padding |
| Base64.PaddingCountsPhantomBreak | src/byte_op.cpp:40-82 | with line breaks on, 56 bytes give 75 symbols and "==" where one '=' is due, and the decoder rejects that text for its length |
| Base64.DecoderRejectsLineBreak | src/byte_op.cpp:90-107 | with line breaks on, 57 bytes encode to 76 symbols and a line break, which the decoder rejects as outside the alphabet |
| Base64.DecoderSkipsLineBreak | src/byte_op.cpp:90-107 | the corrected decoder, which skips CR/LF as the length check does, recovers those 57 bytes |
| Endian.ToBinBytes | src/byte_op.cpp:144-212 | byte k of the little-endian array is (x / 256^k) mod 256; the big-endian array holds them in reverse order |
| Endian.BigIsReversedLittle | src/byte_op.cpp:144-212 | the big-endian array is the little-endian array reversed, for every width |
| Endian.FromBinInRange | src/byte_op.cpp:214-302 | every array converts to a value in range of the target type, signed types by two's complement |
| Endian.RoundTrip | src/byte_op.cpp:132-302 | converting a value to bytes and back gives the value, for every width, signedness and byte order (corrected uint32 little-endian) |
| Endian.RoundTripBytes | src/byte_op.cpp:132-302 | converting bytes to a value and back gives the bytes |
| Endian.UInt32LittleKeepsLowByte | src/byte_op.cpp:255-260 | the uint32 little-endian conversion as written returns the first byte alone, because the byte is shifted before it is widened |
| Endian.UInt32LittleRoundTripFails | src/byte_op.cpp:255-260 | 256 converts to [0, 1, 0, 0], which converts back to 0 as written and to 256 as corrected |
| Endian.AsWrittenElsewhere | src/byte_op.cpp:214-302 | every other conversion as written equals the corrected one |
| SocketUtil.IntervalEnds | src/socket_util.cpp:13-19 | the interval is the step at 0 retries and the largest interval at the retry limit |
| SocketUtil.IntervalMonotone | src/socket_util.cpp:13-19 | the interval never shrinks as the retries grow |
| SocketUtil.IntervalBounds | src/socket_util.cpp:13-19 | up to the retry limit the interval lies between the step and the largest interval |
| SocketUtil.IntervalShift | src/socket_util.cpp:13-19 | nothing clamps the interval: every further maxRetry tries add the whole span between the steps again |
| SocketUtil.IntervalUnclamped | src/socket_util.cpp:13-19 | at 2 * maxRetry tries the interval is 2 * stepMax - stepMin, and from there on it exceeds the largest interval whenever the two steps differ |
| SocketUtil.Search | src/socket_util.cpp:43 | returns the first position where the delimiter occurs, or none when it never does |
| SocketUtil.ReceiveUntilDelim | src/socket_util.cpp:22-55 | returns the data received up to the first delivery that contains the delimiter, with its position, within the limit; fails "excess" when a delivery passes the limit first; otherwise passes on the first exception the receive throws, or fails "expired" when the deliveries run out |
| SocketUtil.UntilDelimOutcomesExclusive | src/socket_util.cpp:37-44 | no delivery sequence can both find the delimiter within the limit and exceed the limit before finding it |
| SocketUtil.ReceiveExactly | src/socket_util.cpp:57-89 | succeeds exactly when some prefix of what the receive returned before throwing has the requested size, and returns that prefix; fails "excess" when a delivery overshoots, and otherwise passes on the receive's first exception or fails "expired" |
| SocketUtil.ExactlyOvershoots | src/socket_util.cpp:72-74 | a delivery that jumps past the size means no prefix ever has that size |
| SocketUtil.ReceiveAtLeast | src/socket_util.cpp:91-118 | succeeds exactly when the deliveries before the receive's first exception reach the size, returning the first delivered prefix that does; otherwise passes on that exception or fails "expired" |
| SocketUtil.ReceiveRest | src/socket_util.cpp:120-128 | leaves a buffer that already holds the size unchanged; otherwise appends exactly the missing bytes, or fails leaving the buffer as it was, with "excess", the receive's first exception or "expired" |
| NativeOs.ModeOf | src/unix_socket_impl.cpp:126-134 | connected is a valid descriptor, a non-zero port and a non-wildcard address; listening is the same with the wildcard address |
| NativeOs.Platform.SendError | src/win_socket.cpp:339-342 | WinSock reports an aborted connection as "disconnected"; every other refusal is a send error with its code |
| NativeSend.Transmit | src/unix_socket.cpp:270-303 | the send loop computes the intended run: packets of the remaining data, "would block" retried up to the limit, advancing by what the OS took |
| NativeSend.SendContract | src/unix_socket.cpp:263-305 | the OS receives a prefix of the data, all of it on success; every offer is at most one packet; a failure is the last refusal, after the retry limit when it was "would block" |
| NativeSend.SendingCompletes | src/unix_socket.cpp:274-301 | when the OS keeps accepting at least one byte per call, the loop sends everything |
| NativeSend.ShrinkSkipsBlockedChunk | src/unix_socket_impl.cpp:280-300 | as written, a "would block" answer still shrinks the span by a whole chunk, so one byte sends as none while the intended loop sends it |
| NativeSend.IndexAfterCases | src/unix_socket.cpp:274-301 | the index arithmetic returns to the same place after a retry and advances by what was taken after a short write, except on the last partial packet |
| NativeSend.IndexSkipsTail | src/unix_socket.cpp:274-301 | as written, a short write of the last partial packet jumps past the end, so 10 bytes accepted 4 then 6 deliver only 4, while the intended loop delivers all 10 |
| NativeReceive.Drain | src/unix_socket.cpp:307-344 | the receive loop returns the drained result of the OS answers |
| NativeReceive.DrainedOutcomes | src/unix_socket_impl.cpp:305-340 | receive returns no data exactly when the OS would block at once, "disconnected" exactly when the peer closed before any data, and otherwise everything delivered before the first empty answer |
| UnixModuleSocket.Socket.constructor | src/unix_socket_impl.cpp:37-41 | a new socket has no descriptor, the wildcard address and port 0, and is unconfigured |
| UnixModuleSocket.Socket.Moved | src/unix_socket_impl.cpp:53-59 | the new socket takes the descriptor, address and port; the source keeps its port, loses its descriptor and becomes unconfigured |
| UnixModuleSocket.Socket.MoveAssign | src/unix_socket_impl.cpp:61-70 | takes the other's descriptor, address and port and leaves it unconfigured; a self-move loses the descriptor |
| UnixModuleSocket.Socket.Dispose | src/unix_socket_impl.cpp:43-51 | closes the descriptor, if there is one, and nothing else |
| UnixModuleSocket.Socket.Listen | src/unix_socket_impl.cpp:87-124 | a configured socket is refused; otherwise the result is the error of the first failing step, and only full success opens a fresh descriptor and records the wildcard address and port; a failure leaves the socket and the descriptor table unchanged |
| UnixModuleSocket.Socket.HasClient | src/unix_socket_impl.cpp:136-153 | true exactly when the socket listens and poll reports a readable descriptor |
| UnixModuleSocket.Socket.Accept | src/unix_socket_impl.cpp:155-189 | refuses a socket that does not listen; "would block" gives nothing and other refusals an error; a client that cannot be made non-blocking is closed; otherwise returns a fresh connected socket with the client's address and port |
| UnixModuleSocket.Socket.Connect | src/unix_socket_impl.cpp:191-248 | the error of the first failing step, in order, without changing anything; success opens one fresh descriptor and records the resolved address text and port |
| UnixModuleSocket.Socket.Disconnect | src/unix_socket_impl.cpp:250-261 | a connected socket closes its descriptor and returns to the unconfigured fields; any other socket is unchanged; afterwards it is not connected |
| UnixModuleSocket.Socket.Send | src/unix_socket_impl.cpp:263-303 | refuses an unconnected socket, returns at once on empty data, and otherwise runs the corrected send loop, delivering all the data on success |
| UnixModuleSocket.Socket.Receive | src/unix_socket_impl.cpp:305-340 | refuses an unconnected socket, otherwise drains the OS |
| UnixSocket.Socket.constructor | src/unix_socket.cpp:31-35 | a new socket has no descriptor, the wildcard address and port 0 |
| UnixSocket.Socket.Moved | src/unix_socket.cpp:50-56 | the new socket takes over the descriptor and fields; the source is left unconfigured |
| UnixSocket.Socket.MoveAssign | src/unix_socket.cpp:58-67 | takes the other's descriptor and fields and leaves it unconfigured; a self-move loses the descriptor |
| UnixSocket.Socket.Dispose | src/unix_socket.cpp:37-48 | closes the descriptor, if there is one |
| UnixSocket.Socket.Listen | src/unix_socket.cpp:84-125 | as for the module version: first failing step, no change on failure, a fresh listening descriptor on success |
| UnixSocket.Socket.HasClient | src/unix_socket.cpp:137-156 | true exactly when listening and poll reports a readable descriptor |
| UnixSocket.Socket.Accept | src/unix_socket.cpp:158-194 | as for the module version: nothing on "would block", a fresh connected socket for a client, the client closed when it cannot be made non-blocking |
| UnixSocket.Socket.Connect | src/unix_socket.cpp:196-245 | the first failing step's error and no change; success records the name it was given and the port |
| UnixSocket.Socket.Disconnect | src/unix_socket.cpp:247-261 | closes a connected socket and resets its fields; any other is unchanged |
| UnixSocket.Socket.Send | src/unix_socket.cpp:263-305 | refuses an unconnected socket, otherwise runs the corrected send loop |
| UnixSocket.Socket.Receive | src/unix_socket.cpp:307-344 | refuses an unconnected socket, otherwise drains the OS |
| WinSocket.Library.Acquire | src/win_socket.cpp:395-418 | the first holder starts WinSock and needs result 0 and version 2.2; a failed start reports its cause and leaves the counter as it was (corrected); later holders only count |
| WinSocket.Library.Release | src/win_socket.cpp:420-424 | removes one holder; the last one stops the library |
| WinSocket.LiveCounted | src/win_socket.cpp:395-424 | while some socket holds the library, the counter is positive and the library is running |
| WinSocket.FailedStartNeverRetried | src/win_socket.cpp:397-407 | as written, a failed start leaves the counter at 1, so the next socket counts to 2 and proceeds without a running library |
| WinSocket.Ntop | src/win_socket.cpp:228-230 | the address text fits a buffer of n characters only when it is shorter than n; the rest of the buffer is NUL |
| WinSocket.AcceptedAddressExact | src/win_socket.cpp:225-230 | with a 16-character buffer cut at the first NUL, every dotted quad is recorded exactly |
| WinSocket.AcceptedAddressAsWrittenFails | src/win_socket.cpp:225-230 | as written, the 15-character buffer rejects "255.255.255.255" and records "10.0.0.1" padded with NULs to 15 characters |
| WinSocket.Socket.Empty | src/win_socket.cpp:59-64 | a new socket has no descriptor, the wildcard address and port 0 |
| WinSocket.Socket.New | src/win_socket.cpp:59-64 | construction takes a library reference, and fails with the start error when the library cannot start |
| WinSocket.Socket.Moved | src/win_socket.cpp:66-75 | the new socket takes over the descriptor and fields and one more library reference; the source is left unconfigured |
| WinSocket.Socket.MoveAssign | src/win_socket.cpp:77-86 | takes the other's descriptor and fields and leaves it unconfigured; a self-move loses the descriptor |
| WinSocket.Socket.Dispose | src/win_socket.cpp:88-102 | closes the descriptor, if any, and releases the library, stopping it with the last socket |
| WinSocket.Socket.Listen | src/win_socket.cpp:119-167 | the first failing step among socket, resolve, bind, non-blocking and listen, with no change; success records a fresh descriptor, the wildcard address and the port |
| WinSocket.Socket.HasClient | src/win_socket.cpp:179-201 | true exactly when listening, select does not fail, and the descriptor is reported ready |
| WinSocket.Socket.Accept | src/win_socket.cpp:203-243 | refuses a socket that does not listen; "would block" gives nothing; a client gets a fresh socket holding a library reference and its exact address, or is closed and released when its address does not fit or it cannot be made non-blocking (corrected address buffer) |
| WinSocket.Socket.Connect | src/win_socket.cpp:245-288 | the first failing step's error and no change; success records the name and port |
| WinSocket.Socket.Disconnect | src/win_socket.cpp:290-304 | closes a connected socket and resets its fields; any other is unchanged |
| WinSocket.Socket.Send | src/win_socket.cpp:306-352 | refuses an unconnected socket, otherwise runs the corrected send loop with WinSock's codes |
| WinSocket.Socket.Receive | src/win_socket.cpp:354-393 | refuses an unconnected socket, otherwise drains the OS with WinSock's codes |
| TlsSocket.Calls | src/tls_socket.cpp:133-175 | the number of engine calls before a timer of step s reaches a limit is the least n with n times s at least the limit |
| TlsSocket.HandshakeCalls | src/tls_socket.cpp:133-175 | the handshake timer (50 ms steps up to 1000 ms) allows 20 engine calls |
| TlsSocket.HandshakeContract | src/tls_socket.cpp:131-179 | the handshake makes 1 to 20 calls, all but the last asking to be called again; it succeeds exactly when the last call completes, and times out exactly when the 20th call still asks again |
| TlsSocket.WriteContract | src/tls_socket.cpp:204-240 | the write retries while the engine asks again, up to the I/O timeout; it succeeds exactly when the final write took all of non-empty data, and a short positive write is "incomplete" |
| TlsSocket.ReadContract | src/tls_socket.cpp:249-296 | the read collects full packets while they come and then the last short read; it returns nothing exactly when the first read was empty with a request to call again |
| TlsSocket.Context.Acquire | src/tls_socket.cpp:406-422 | the first holder creates the context; a failed creation leaves the counter as it was; later holders only count |
| TlsSocket.Context.Release | src/tls_socket.cpp:424-428 | removes one holder; the last frees the context |
| TlsSocket.HolderCounted | src/tls_socket.cpp:406-428 | while some socket holds the context, the counter is positive and the context exists |
| TlsSocket.ClientLifeLeaks | src/tls_socket.cpp:75-129 | as written, constructing and destroying one client leaves the counter at 1 and the context allocated |
| TlsSocket.LifeBalanced | src/tls_socket.cpp:56-129 | one acquire per socket and one release in the destructor leave the counter as it was, and free the context when it was the only one |
| TlsSocket.Socket.Empty | src/tls_socket.cpp:56-64 | a default socket has no session and is in the connecting state |
| TlsSocket.Socket.New | src/tls_socket.cpp:56-64 | the default constructor takes a context reference, or fails when the context cannot be created |
| TlsSocket.Socket.Accepted | src/tls_socket.cpp:66-73 | a server-side socket holds the session, takes a context reference and waits to accept the handshake |
| TlsSocket.Socket.Connect | src/tls_socket.cpp:75-99 | success means the native connect, the context, the session and its binding to the descriptor all succeeded; then it holds one context reference (corrected); any failure releases everything it took |
| TlsSocket.Socket.Moved | src/tls_socket.cpp:101-110 | the new socket takes the native socket, session and state, and one more context reference; the source keeps no session but keeps its handshake state |
| TlsSocket.Socket.MoveAssign | src/tls_socket.cpp:112-119 | the two sockets swap native socket, session and state |
| TlsSocket.Socket.Dispose | src/tls_socket.cpp:121-129 | closes the native descriptor and releases the context, freeing it with the last holder |
| TlsSocket.Socket.Cipher | src/tls_socket.cpp:196-202 | the negotiated cipher name when there is a session, else the empty string |
| TlsSocket.Socket.Handshake | src/tls_socket.cpp:131-179 | a finished handshake cannot be repeated and makes no engine call; otherwise the run is the handshake of the engine answers, and the state becomes done exactly on success |
| TlsSocket.Socket.Send | src/tls_socket.cpp:204-240 | refuses an unconnected socket; runs a pending handshake first, returning its error; then the write loop over the data |
| TlsSocket.Socket.Receive | src/tls_socket.cpp:249-296 | refuses an unconnected socket; runs a pending handshake first; then the read loop, falling back to the native receive on a system error with an empty queue |
| TlsSocket.PairingIsHandshake | src/tls_socket.cpp:327-397 | driving the two sides in turn is one handshake over the interleaved answers, server first |
| TlsSocket.EstablishHandshake | src/tls_socket.cpp:327-397 | refuses two sockets that are not one connecting and one accepting; otherwise alternates the two sides, both done on success and both unchanged on failure |
| TlsServer.Server.Empty | src/tls_socket_serv.cpp:54-61 | a default server has a native socket and no key paths |
| TlsServer.Server.New | src/tls_socket_serv.cpp:54-61 | the default constructor takes a context reference, or fails when the context cannot be created |
| TlsServer.Server.Open | src/tls_socket_serv.cpp:63-76 | succeeds exactly when the context, the three key checks and every listen step succeed, recording the paths and port; a failure releases the reference it took (corrected: no extra context references) |
| TlsServer.Server.Listen | src/tls_socket_serv.cpp:101-117 | the first failing key check (certificate, key, pair), else the native listen; the paths change only on success (corrected: no extra context references) |
| TlsServer.Server.HasClient | src/tls_socket_serv.cpp:139-142 | true exactly when the native socket listens and poll reports it readable |
| TlsServer.Server.Accept | src/tls_socket_serv.cpp:144-162 | nothing exactly on "would block"; a client whose session cannot be created or bound is closed; otherwise a fresh accepting TLS socket holding one context reference (corrected) |
| TlsServer.Server.Moved | src/tls_socket_serv.cpp:78-85 | the new server takes the listener and paths, and one more context reference; the source no longer listens |
| TlsServer.Server.MoveAssign | src/tls_socket_serv.cpp:87-94 | the two servers swap listener and paths |
| TlsServer.Server.Dispose | src/tls_socket_serv.cpp:96-99 | releases the context, freeing it with the last holder |
| TlsServer.ServerLifeLeaks | src/tls_socket_serv.cpp:101-117 | as written, each key check that runs takes a context reference that is never released, so a server's life leaves the counter at 1 to 3 |
| TlsServer.AcceptedLifeLeaks | src/tls_socket_serv.cpp:144-162 | as written, accepting a client and destroying it leaves the counter one higher than before |

## Left out

- `calc_intervalo_proporcional` computes in `double`. The model computes the same quantity in integers: step + (max − step) × retries / limit, truncated toward zero. The rounding of the `double` quotient, which can make the source's value one millisecond lower, is not modelled.
- The sleeps and the clocks are replaced by their effect on the loops. The receive helpers end when their scripted answers run out, which stands for their deadline; each scripted answer is a delivery or an exception of the receive. The TLS loops count elapsed steps. The native `send` counts retries. The intervals the native `send` sleeps for are not modelled.
- The OS calls (`socket`, `getaddrinfo`, `bind`, `fcntl`/`ioctlsocket`, `listen`, `connect`, `poll`/`select`, `accept`, `inet_ntop`) and the OpenSSL calls (`SSL_connect`/`accept`/`read`/`write`, `SSL_CTX_*`) are modelled only by what they answer. Sockaddr layouts, `htons` and address parsing are not modelled. The address `connect` records is the resolved text it was handed.
- `shutdown` in the destructors and in `desconectar`/`disconnect` is not modelled; only the descriptor close is.
- `call_once(inicializa_lib, inicializa_OpenSSL)` and `msg_err_str` only load library strings and format messages. The error messages are not modelled; the error kind and code are.
- The accessors `native_handle`, `end_ipv4`/`porta_ipv4`, `caminho_chave_pub`/`caminho_chave_priv`, `conectado` of the TLS socket and `escutando` of the server read a field. They are the fields and predicates of the classes.
- `bin_to_strv`, `bin_to_str`, `strv_to_bin` and the `string_view` overloads of `para_base64` and `enviar` are reinterpretations of the same bytes. The model works on byte sequences.
- The TLS templates `receber_ate_delim`, `receber_ate_tam`, `receber_ao_menos` and `receber_resto` forward to the helpers of `socket_util.cpp`. Those helpers are modelled once, over any receive.
- `tls_socket` is built on the library's `socket` alias. Its model holds the native POSIX socket of `unix_socket.cpp`. The aliasing file `socket.cpp` is not part of this model.
- `socket_serv.cpp` is not part of this model. The TLS server's listener is the native POSIX socket.
- The module interface unit of `unix_socket_impl` is not part of this model. The module version's defaults are taken to be those of the older class.
- `unix_socket.cpp`, `win_socket.cpp`, `socket_util.cpp` and `tls_socket.cpp` name the configuration constants `intervalo_passo`, `intervalo_max`, `bloco` and `tentativas_max`. `tls_socket.cpp` alone also uses a `timeout`, in its write and read loops only. `cfg.h` and `unix_socket_impl.cpp` use the names `wait_io_step_min`, `wait_io_step_max`, `packet_size` and `io_max_retry`, and `cfg.h` has no I/O timeout. The model uses one `Config` for both sets of names. The I/O timeout is its own field, which only `TlsSocket.Writing` and `TlsSocket.Reading` read.
- Integers are unbounded. Nothing depends on the following, which are not modelled:
  - the 32-bit port passed to `htons`;
  - the `int` index of the WinSock send loop;
  - `size_t` overflow in the base64 size estimate.
- The process-wide counters are taken as unbounded. Their 32-bit wrap-around and their atomicity under concurrent threads are not modelled.
- After a move, the C++ standard leaves the moved-from address string unspecified. The move contracts say nothing about it, except where the model swaps.
- `UnixModuleSocket.Socket.Send`, `UnixSocket.Socket.Send` and `WinSocket.Socket.Send` run the corrected loop. The loops as written are the separate functions of the send findings below.
- `WinSocket.Library.Acquire`, `TlsSocket.Socket.Connect`, `TlsServer.Server.Listen` and `TlsServer.Server.Accept` state the corrected reference counting. The counting as written is replayed by the leak lemmas of the findings below.
- Accept (`WinSocket.Socket.Accept`) records the client address through the corrected 16-character buffer cut at the first NUL. As written, the 15-character buffer keeps its NUL padding and has no room for a 15-character address; `WinSocket.AcceptedAddressAsWrittenFails` states that behaviour.
- Open (`TlsServer.Server.Open`) states the corrected reference counting: a server holds one context reference. As written, the key checks of `escutar` leave 1 to 3 more; `TlsServer.ServerLifeLeaks` replays that.
- `tls_socket::conectar`, `desconectar`, `tls_ext_host_name` and `protocolo_tls` are declared in the header but defined in no source file. They are not modelled.

## Findings

| source | as written | input that shows it | evidently intended | confidence | as-written member | corrected member |
|---|---|---|---|---|---|---|
| src/byte_op.cpp:40-82 | the size estimate counts one line break per 76 padded characters, including a break the loop never writes, and the padding fills up to that estimate | 56 bytes with line breaks on: 75 symbols, then "==" instead of "=", and the decoder rejects the result for its length | pad the symbols to a multiple of 4, not the estimate | not executed | Base64.PaddingCountsPhantomBreak | Base64.RoundTrip |
| src/byte_op.cpp:90-107 | the decoder's length check skips CR and LF, but its loop rejects them as outside the alphabet | 57 bytes with line breaks on encode to 76 symbols and a line break, which the decoder rejects | skip CR and LF in the loop as in the length check | not executed | Base64.DecoderRejectsLineBreak | Base64.DecoderSkipsLineBreak |
| src/byte_op.cpp:259-260 | the uint32 little-endian conversion shifts the `std::byte` before widening it, so bytes 1 to 3 are shifted out | [0, 1, 0, 0] converts to 0 instead of 256 | widen first, then shift, as every other conversion does | not executed | Endian.UInt32LittleRoundTripFails | Endian.RoundTrip |
| src/unix_socket_impl.cpp:280-300 | after a "would block" answer the span still shrinks by the whole chunk | one byte: "would block", then accepted; the loop ends having sent nothing and reports success | shrink the span only by what the OS took | not executed | NativeSend.ShrinkSkipsBlockedChunk | NativeSend.SendContract |
| src/unix_socket.cpp:274-299 | after a short write of the last, partial packet, the index steps back and the loop increment then jumps a whole packet | 10 bytes with packets of at least 16: accepted 4, then 6; the loop ends after 4 bytes and reports success | advance the index by what the OS took | not executed | NativeSend.IndexSkipsTail | NativeSend.SendContract |
| src/win_socket.cpp:317-346 | the same index arithmetic as in `unix_socket.cpp` | the same 10 bytes accepted 4, then 6 | advance the index by what the OS took | not executed | NativeSend.IndexSkipsTail | NativeSend.SendContract |
| src/win_socket.cpp:397-407 | the counter is incremented before `WSAStartup` and not restored when the start fails | a start that fails with 10091, then a second socket: the counter goes to 2 and the socket proceeds with WinSock not started | undo the increment when the start fails | not executed | WinSocket.FailedStartNeverRetried | WinSocket.Library.Acquire |
| src/win_socket.cpp:225-230 | the address buffer is resized to 15 characters, with no room for the terminating NUL, and its NUL padding is kept | "255.255.255.255" does not fit, and the accept fails; "10.0.0.1" is recorded padded with NULs to 15 characters | a 16-character buffer cut at the first NUL | not executed | WinSocket.AcceptedAddressAsWrittenFails | WinSocket.AcceptedAddressExact |
| src/tls_socket.cpp:83-86 | the client constructor takes a context reference through `ctxssl_ini` and another through `SSL_new(openssl_ctx())`; the destructor returns one | constructing and destroying one client from a count of 0 leaves the count at 1 and the context allocated | take one reference per socket | not executed | TlsSocket.ClientLifeLeaks | TlsSocket.LifeBalanced |
| src/tls_socket_serv.cpp:104-110 | each of the three key checks calls `openssl_ctx()`, taking a reference that is never returned | a server whose three checks pass ends its life with the count at 3 instead of 0 | use the context without taking a reference | not executed | TlsServer.ServerLifeLeaks | TlsServer.Server.Listen |
| src/tls_socket_serv.cpp:151 | `SSL_new(openssl_ctx())` takes a reference for the accepted socket, and its constructor takes another | accepting and destroying one client raises the count by one | take one reference per accepted socket | not executed | TlsServer.AcceptedLifeLeaks | TlsServer.Server.Accept |
