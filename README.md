# UA4F connection core, modelled in Dafny

UA4F is a SOCKS5 proxy. It rewrites the `User-Agent` header of plain HTTP
requests that pass through it. This project models two parts of it:

- **The rewriter, `src/http.rs`, in full** (module `Http`):
  - `is_http_request` classifies the first bytes a client sends.
  - `check_is_in_whitelist` matches a header value against four client identifiers, ignoring ASCII case.
  - `modify_user_agent` finds the first `User-Agent: ` header, finds the `\r` that ends its value, and skips the rewrite in four cases: no header, no `\r`, a value longer than 1024 bytes, or a whitelisted value. Otherwise it splices the configured value in and installs the new buffer.
- **The per-connection decision logic of `src/main.rs`** (module `Connection`):
  - `handler` authenticates, waits for the SOCKS5 command and routes it.
  - `handle_tcp_connect` maps a connect outcome to a reply code, reads the client's first bytes into a 4096-byte zeroed buffer, rewrites that buffer when it holds an HTTP request, forwards its first `initial_read` bytes and relays.
  - `handle_udp_associate` is modelled up to its echo loop.

How it is modelled:

- The SOCKS5 library, the sockets and the clock are replaced by a *script*: one abstract outcome per awaited call.
- A *run* is the sequence of effects the handler attempts, plus the value it returns.
- The state of the proxy is kept in the source's own form:
  - `Bytes.ByteBuffer` is a class holding a `seq<byte>`. It stands for the `Vec<u8>`/`BytesMut` buffers.
  - `modify_user_agent` is a method that changes that buffer in place.
  - The whitelist check is a loop.
  - The handlers are methods that build their run step by step.
- Each method is proved equal to a pure specification function:
  - `Rewrite` for `ModifyUserAgent`;
  - `InWhitelist` for `CheckIsInWhitelist`;
  - `TcpConnectRun`, `AssociateRun` and `HandlerRun` for the handlers.
- The properties are proved as lemmas about those functions.

Files:

- `wrappers.dfy`: `Option`.
- `bytes.dfy`: the byte type, ASCII literals, zero fills and the buffer class.
- `http.dfy`: `src/http.rs`.
- `connection.dfy`: `src/main.rs`.

What the code does that a reader might not expect:

- Only seven method tokens are recognised: `GET`, `POST`, `HEAD`, `PUT`, `DELETE`, `OPTIONS` and `CONNECT`, each followed by a space. `PATCH` and `TRACE` are not.
- A buffer shorter than four bytes is never classified as HTTP.
- A header value with no `\r` after it is left alone. It is not taken to run to the end of the buffer.
- The code has no destination cache, no UDP packet codec and no half-close relay logic of its own.

## Model

| member | source | states |
|---|---|---|
| Bytes.ByteBuffer.WithCapacity | src/http.rs:60 | `BytesMut::with_capacity`: the new buffer holds no bytes, whatever capacity is asked for |
| Bytes.ByteBuffer.ExtendFromSlice | src/http.rs:61-63 | `extend_from_slice`: the buffer afterwards is its old contents followed by the slice, nothing else changes |
| Bytes.ByteBuffer.Assign | src/http.rs:66 | `*buf = new_buf`: the buffer afterwards holds exactly the other buffer's bytes |
| Bytes.ByteBuffer.Zeroed | src/main.rs:253 | `vec![0; 4096]`: a buffer of exactly `n` bytes, every one zero |
| Bytes.ByteBuffer.ReadInto | src/main.rs:255 | a successful `read` of no more than the buffer's length overwrites the front with the bytes read and keeps the rest of the buffer as it was |
| Http.Find | src/http.rs:19 | `memmem::find`: `Some(p)` is an occurrence of the needle with no earlier one; `None` exactly when the needle occurs nowhere |
| Http.FindByte | src/http.rs:27 | `memchr`: `Some(p)` is the first position holding the byte; `None` exactly when no position holds it |
| Http.IsHttpRequest | src/http.rs:5-13 | a buffer classified as HTTP has at least four bytes, so short and empty buffers are non-HTTP without error |
| Http.StartsWithBytewise | src/http.rs:6-12 | `starts_with`: true exactly when the prefix is no longer than the buffer and agrees with it byte by byte |
| Http.IsHttpRequestIffMethodWord | src/http.rs:5-13 | classified as HTTP if and only if the bytes before the first space are one of the seven method names |
| Http.FirstWord | src/http.rs:5-13 | the word it returns is a space-free prefix of the buffer followed by a space; there is no word exactly when the buffer holds no space |
| Http.FirstWordOfToken | src/http.rs:5-13 | a buffer that starts with a method name and a space has that name as its first word, and conversely |
| Http.GetIsHttpRequest | src/http.rs:6 | `GET / HTTP/1.1` is HTTP; a bare `GET` without its space is not |
| Http.LowerCaseIsNotHttpRequest | src/http.rs:5-13 | method tokens are case-sensitive: `get / HTTP/1.1` is not HTTP |
| Http.PatchAndTraceAreNotHttpRequests | src/http.rs:5-13 | `PATCH` and `TRACE` request lines are not classified as HTTP |
| Http.ToAsciiLowercase | src/http.rs:82 | ASCII lower-casing: the result is never an upper-case letter, every byte that is not an upper-case letter is kept, and the result is a lower-case letter exactly when the input is a letter of either case |
| Http.EqIgnoreAsciiCase | src/http.rs:82 | `eq_ignore_ascii_case`: equal slices compare equal, and slices that compare equal have the same length |
| Http.CheckIsInWhitelist | src/http.rs:74-87 | the loop over the four entries returns true exactly when some entry has the value's length and equals it ignoring ASCII case |
| Http.WhitelistIgnoresCase | src/http.rs:82 | two values that are equal ignoring ASCII case are both listed or both unlisted |
| Http.WhitelistWholeValue | src/http.rs:82 | only whole values match: a listed value has the length of an entry (21, 13, 18 or 28 bytes), and every exact entry is listed |
| Http.WhitelistAcceptsOtherCase | src/http.rs:77 | `bytedancepcdn` is listed |
| Http.WhitelistRejectsLonger | src/http.rs:76 | `MicroMessenger Client/8.0`, an entry with a suffix, is not listed |
| Http.LocateHeader | src/http.rs:19-25 | the verdict reports no header exactly when `User-Agent: ` occurs nowhere; otherwise its start is the end of the first occurrence |
| Http.LocateTerminator | src/http.rs:27-33 | the verdict reports no terminator exactly when a header was found and no `\r` follows its start |
| Http.LocateValueSpan | src/http.rs:27-40 | a found value runs from the end of the header up to, not including, the first `\r` after it |
| Http.LocateClassifies | src/http.rs:49-57 | a value over 1024 bytes is oversized; a value within the limit is whitelisted exactly when `check_is_in_whitelist` accepts it; any other value is replaced |
| Http.Splice | src/http.rs:60-63 | the new buffer is the bytes before the value, then the new value, then the bytes from the `\r` on |
| Http.ModifyUserAgent | src/http.rs:16-72 | afterwards the buffer is `Rewrite` of the old buffer: unchanged on each early return, spliced otherwise |
| Http.RewriteSkipped | src/http.rs:19-57 | with no header, no `\r`, a value over 1024 bytes or a whitelisted value, the buffer is returned byte-identical |
| Http.RewriteSplice | src/http.rs:60-66 | a rewritten buffer keeps the old prefix and the old suffix from the `\r` on, holds `ua` between them, and changes length by the difference of the value lengths |
| Http.RewriteKeepsHttpVerdict | src/http.rs:60-66 | the rewrite never changes whether the buffer reads as an HTTP request |
| Http.IsHttpRequestOnPrefix | src/http.rs:5-13 | only the first eight bytes decide the classification |
| Http.FirstHeaderOnPrefix | src/http.rs:19 | a buffer that shares the bytes up to the first header's end has its first header in the same place |
| Http.ValueSpanOfInserted | src/http.rs:27 | an inserted value free of `\r` and followed by `\r` is a whole header value |
| Http.RewriteLocatesNewValue | src/http.rs:19-33 | after a rewrite with a value free of `\r`, the first header is where it was and its value is exactly the inserted one |
| Http.RewriteFixed | src/http.rs:54-66 | a buffer whose located value already is `ua` is left unchanged by the rewrite with `ua` |
| Http.RewriteIdempotent | src/http.rs:16-72 | rewriting twice with a value free of `\r` gives the same buffer as rewriting once |
| Connection.ShutdownStreams | src/main.rs:296-298 | shuts down the client, then the target, returning the first failure, or `Ok(())` |
| Connection.HandleTcpConnect | src/main.rs:200-250 | the run of `handle_tcp_connect` is `TcpConnectRun` of its script |
| Connection.ReadAndForward | src/main.rs:253-298 | from the first read on, the run is `AfterRead`: a read error, a close on zero bytes, a panic when `buf[..initial_read]` is out of range, or the write, flush and relay |
| Connection.HandleUdpAssociate | src/main.rs:130-196 | the run of `handle_udp_associate` is `AssociateRun` of its script |
| Connection.Route | src/main.rs:104-126 | the routing `match` runs `CommandRun`: Bind is refused, Connect and Associate are delegated |
| Connection.Handler | src/main.rs:93-128 | the run of `handler` is `HandlerRun` of its script |
| Connection.ShutdownBothQuiet | src/main.rs:296-298 | the final shutdowns send no reply and write nothing |
| Connection.AfterReadReplies | src/main.rs:253-298 | after the first read no reply is sent; exactly the forwarded bytes are written when a non-empty read forwards without panic |
| Connection.ConnectReplyMatchesAttempt | src/main.rs:220-250 | `handle_tcp_connect` sends exactly one reply: `Succeeded` after a connect, `HostUnreachable` after a connect error, `TtlExpired` after the timeout |
| Connection.RefusedReplies | src/main.rs:220-236 | after a failed or timed-out connect the only reply is its error code |
| Connection.EstablishedReplies | src/main.rs:238-250 | after a successful connect the only reply is `Succeeded` |
| Connection.ConnectFailureReturnsError | src/main.rs:220-236 | a connect error or timeout returns that error, or the error of the client shutdown after a delivered reply; nothing is read; the client is shut down exactly when the reply went out |
| Connection.SucceededReplyFailure | src/main.rs:242-250 | when the `Succeeded` reply fails, the client is shut down, nothing is read, and the reply error (or the shutdown error) is returned |
| Connection.ConnectedRun | src/main.rs:238-255 | after a delivered `Succeeded` reply the run is the handshake effects followed by the read phase |
| Connection.ZeroReadClosesBoth | src/main.rs:255-260 | a zero-byte first read shuts down the client and then the target, forwards nothing, and returns the first shutdown error or `Ok(())` |
| Connection.ForwardsFirstRead | src/main.rs:262-275 | after a non-empty read, the connection task panics exactly when the slice is out of range; otherwise exactly one write of `initial_read` bytes is attempted |
| Connection.LoggedFailuresIgnored | src/main.rs:238-275 | failures of `set_nodelay`, of the initial write and of its flush do not change the run |
| Connection.AssociateReplyMatchesAttempt | src/main.rs:151-196 | UDP associate sends one reply, chosen as for TCP connect, and always ends in an error; the echo loop runs exactly when the bind succeeded and the reply went out |
| Connection.AuthFailureShutsDown | src/main.rs:95-100 | a failed authentication shuts the client down and returns the error; no command is read |
| Connection.WaitFailureShutsDown | src/main.rs:121-125 | a failed command wait shuts the client down and returns the error |
| Connection.BindRefused | src/main.rs:105-111 | Bind is answered only with `CommandNotSupported`; the client is closed exactly when that reply went out; the run fails only if that close fails; nothing is written |
| Connection.ConnectDelegated | src/main.rs:113-115 | Connect runs `handle_tcp_connect` after the handshake and returns what it returns, with exactly one reply |
| Connection.ForwardUnchangedUnlessHttp | src/main.rs:262-269 | without an HTTP request line, or with no User-Agent configured, the bytes read are forwarded unchanged |
| Connection.FindHeaderPadded | src/main.rs:253-265 | zero padding does not move the first header occurrence |
| Connection.LocatePadded | src/main.rs:253-265 | the zero-padded buffer gets the verdict of the bytes read |
| Connection.RewritePadded | src/main.rs:253-265 | rewriting the padded buffer is rewriting the bytes read, then padding |
| Connection.IntendedForward | src/main.rs:262-269 | the corrected forward: only the located value is replaced, and the bytes read are sent unchanged when no rewrite applies |
| Connection.IntendedForwardKeepsHttp | src/main.rs:262-269 | the corrected forward is an HTTP request exactly when the bytes read were |
| Connection.ForwardAsWritten | src/main.rs:262-269 | the code as written sends the first `initial_read` bytes of the corrected forward plus its zero padding, or panics when that is shorter |
| Connection.ForwardDropsRewrittenTail | src/main.rs:269 | with a longer replacement, the corrected forward is longer than the read and only its first `initial_read` bytes are sent |
| Connection.ForwardAppendsZeros | src/main.rs:269 | with a shorter replacement that fits, zero bytes the client never sent are appended |
| Connection.ForwardPanics | src/main.rs:269 | with a long first read the slice is out of range and the connection task panics |
| Connection.ForwardCorrectIffSameLength | src/main.rs:262-269 | when a rewrite happens, the code as written forwards the corrected bytes exactly when the old and new values have the same length |

## Left out

- Sockets, `tokio` tasks and real time are not modelled. Each awaited call is one scripted outcome, and the 30-second timeout is the `AttemptTimedOut` outcome.
- The SOCKS5 handshake inside `socks5_server` (`authenticate`, `wait`, `reply`, `close`, `shutdown`) is not modelled; its results are scripted. Replies always carry the unspecified address, which the model does not record.
- The target `Address` is not modelled. The domain and socket-address branches of the two handlers differ only in how they dial and in log text.
- The listener loop of `main` is not modelled. That covers the accept loop, the semaphore that bounds concurrent connections (its permit is held for the whole task), and the logging of a handler's error.
- Command-line parsing, the logger set-up and the `USERAGENT` cell are not modelled. The configured User-Agent is an `Option` parameter. `src/utils.rs` and `src/utils/logger.rs` are not part of this model.
- All `debug!`/`warn!`/`error!` logging, and the UTF-8 decoding done only for logging in `src/http.rs:44-47` and `src/http.rs:68-71`, are not modelled.
- The relay `copy_bidirectional_with_sizes` is one effect with a scripted result. Its buffer sizes (`buf.len()`) and byte counts are not modelled.
- The UDP echo loop of `handle_udp_associate` is one effect that ends with the scripted receive or send error.
- `Http.ModifyUserAgent`: the source's `end > buf.len()` guard (`src/http.rs:35-38`) can never fire, because the `\r` search bounds `end`. The model proves that bound instead of modelling the unreachable early return.
- The buffer capacity passed to `BytesMut::with_capacity` cannot be observed, so it is not modelled.
- `src/main.rs:253` allocates a `Vec<u8>`, but `src/main.rs:265` passes it where `modify_user_agent` expects a `&mut BytesMut`. The model treats both as the same byte buffer.
- Integer widths are not modelled. Every length is at most about 4096 + the configured UA length, so no `usize` arithmetic in the core can overflow.

## Findings

The three findings below share one root cause. `modify_user_agent` is applied to the whole 4096-byte zeroed buffer, but `src/main.rs:269` still sends `buf[..initial_read]` with the length of the original read. `Connection.ForwardAsWritten` states what is handed to `write_all` in terms of the corrected forward, `Connection.IntendedForward`.

| source | as written | input that shows it | evidently intended | confidence | as-written member | corrected member |
|---|---|---|---|---|---|---|
| src/main.rs:269 | forwards `buf[..initial_read]` after a rewrite that changed the buffer's length; a longer User-Agent loses the end of the request | first read `GET / HTTP/1.1\r\nUser-Agent: a\r\n\r\n` with User-Agent `FFFF`: the final three bytes `\n\r\n` are never sent | forward the whole rewritten read | not executed | Connection.ForwardDropsRewrittenTail | Connection.IntendedForward |
| src/main.rs:269 | with a shorter User-Agent, zero bytes from the buffer's padding are sent after the request | first read `GET / HTTP/1.1\r\nUser-Agent: abcdefgh\r\n\r\n` with User-Agent `FFFF`: four zero bytes follow the request | forward only the rewritten read | not executed | Connection.ForwardAppendsZeros | Connection.IntendedForward |
| src/main.rs:269 | the slice `buf[..initial_read]` is out of range when the rewritten buffer is shorter than the read, and the connection task panics | a full 4096-byte first read whose `User-Agent` value is 100 bytes, with User-Agent `FFFF`: the rewritten buffer has 4000 bytes | forward the rewritten read without panicking | not executed | Connection.ForwardPanics | Connection.IntendedForward |
