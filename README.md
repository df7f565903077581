# Counter server and client over length-prefixed sockets

The system is a TCP counter service. Clients send ADD, SUB and TERMINATE
messages. The server keeps one shared 64-bit counter (`number`). It applies
each ADD or SUB to the counter. On TERMINATE it replies with a type-4
message that carries the counter, then closes the connection.

Messages are framed by `send_msg` / `recv_msg`:
- a 4-octet buffer holding the payload size as ASCII decimal digits,
  written by `to_char_array` and read back with `atoi`;
- then the serialised payload.

A listener thread accepts connections. It hands each one, round-robin, to
one of `numThreads` epoll sets. It also serves the connections of set 0
itself. Each worker thread serves the connections of one of the other sets.
Each client thread sends `num_msg` operations that alternate ADD `add` and
SUB `sub`, then TERMINATE. It then reads one reply and prints its argument.

The project has five modules:
- `Wire` (`wire.dfy`): the fixed-width integers and their wrap-around, the
  message record, and the payload codec.
- `Rio` (`rio.dfy`): one end of a connected socket as a class. `rx` holds
  the octets still to be read. `tx` holds the octets written. `room` is how
  much the peer still accepts.
- `Utils` (`utils.dfy`):
  - `to_char_array` as an in-place method on a 4-octet array;
  - `atoi` on that buffer;
  - the pure specification `RecvSpec` of one `recv_msg` call;
  - `send_msg` and `recv_msg` as methods on a `Socket`.
- `Server` (`server.dfy`):
  - the pure specification `Serve` of the dispatch loop that
    `conn_server` and `listen_server` run on one connection;
  - its properties over whole message sequences;
  - the round-robin target;
  - main's table of epoll sets;
  - a `Server` class whose fields are the shared counter, `conn_nb` and
    the epoll sets, with the dispatch loop as methods proved against
    `Serve`.
- `Client` (`client.dfy`): the request sequence of `client`, its closed-form
  net effect, and the client routine as a method on a `Socket`.

The counter is unbounded in `Serve` (`total`). It is exposed wrapped to 64
bits, as `std::atomic<int64_t>::fetch_add` wraps. The reply is narrowed to 32
bits through `int cur_number`.

## Model

| member | source | states |
|---|---|---|
| Wire.Wrap32 | server.cpp:119-120 | the value stored in `int cur_number` is the one 32-bit value congruent to the counter modulo 2^32; it equals the counter exactly when the counter fits in 32 bits |
| Wire.Wrap64 | server.cpp:111-115 | `fetch_add` leaves the one 64-bit value congruent to the exact sum modulo 2^64; that value equals the sum exactly when no overflow happened |
| Wire.WrapAdd64 | server.cpp:111-115 | a chain of wrapping `fetch_add`s ends where one wrapping add of the exact total would |
| Wire.ParseSerialize | utils.cpp:151-157 | the payload codec round-trips every message, including the extreme operation types and arguments |
| Utils.NumDigits | utils.cpp:179 | the digit count `log10(n) + 1` is the d with 10^(d-1) <= n < 10^d |
| Utils.DigitsBelow | utils.cpp:179-184 | a numeral has at most k digits exactly when the number is below 10^k (so 4 digits fit the buffer exactly when n < 10000) |
| Utils.Decimal | utils.cpp:182-185 | the numeral has NumDigits(n) octets, all ASCII digits, the first not '0' |
| Utils.DecimalValue | utils.cpp:182-185 | reading the digits back gives n |
| Utils.NumeralStep | utils.cpp:182-185 | one loop step: digit i is `number % 10 + '0'` of the remaining number, and dividing by 10 leaves the numeral's first i digits |
| Utils.ToCharArray | utils.cpp:177-187 | for 1 <= n <= 9999 the 4-octet buffer holds the decimal digits of n, most significant first, in positions 0..d-1, and zeros after them |
| Utils.AtoiOfPrefix | utils.cpp:127 | `atoi` on the buffer stops inside it exactly when n <= 999, and then returns n; a four-digit numeral leaves no octet to stop the scan |
| Utils.RecvSpec | utils.cpp:119-146 | a defined `recv_msg` leaves a suffix of the stream, and a strictly shorter one unless the stream was empty |
| Utils.RecvFrame | utils.cpp:119-146 | a frame with a 1..999-octet payload is consumed exactly (4 prefix octets, then `size` payload octets), the decoded type and argument come back, and the octets after the frame stay in the stream |
| Utils.RecvFrameOverrun | utils.cpp:127 | a frame with a 1000..9999-octet payload makes the receiving `atoi` run past its buffer, so the behaviour is undefined |
| Utils.RecvSendRoundTrip | utils.cpp:119-175 | `recv_msg` applied to what `send_msg(t, a)` wrote yields (t, a) and leaves whatever followed |
| Utils.WriteFrame | utils.cpp:163-174 | the prefix octets, then the payload octets, are appended in that order, cut where the connection stops accepting; returns 1 when either write fails and 0 otherwise |
| Utils.SendMsg | utils.cpp:148-175 | the socket receives the message's frame, cut where the connection stops accepting; returns 0 exactly when the whole frame was written |
| Utils.RecvMsg | utils.cpp:119-146 | on failure returns 1 with both outputs unchanged; on success returns 0 with the decoded type and argument; in both cases the stream is left as RecvSpec says |
| Server.ServeWrapped | server.cpp:101-134 | the outcome of a connection depends on the changes made before it only through their 64-bit wrapped sum |
| Server.ServeOneFrame | server.cpp:171-191 | dispatch of one frame: ADD adds the argument, SUB subtracts it, other types change nothing and the loop goes on; TERMINATE leaves the counter as it is, replies with it narrowed to 32 bits, and reads nothing further |
| Server.ServeRequests | server.cpp:165-197 | for whole frames containing a TERMINATE, the reply is the starting counter plus the ADD arguments minus the SUB arguments before the first TERMINATE (wrapped to 64 bits, then narrowed to 32); the octets after that TERMINATE are never read |
| Server.ServeOperations | server.cpp:165-197 | whole frames without a TERMINATE carry their net effect on to whatever follows them |
| Server.ServeExhausted | server.cpp:104-107 | `recv_msg` fails on an exhausted stream; on any stream whose next receive fails and leaves nothing behind (exhausted, or a last prefix announcing size 0 or followed by no payload), the worker's loop spins with the counter unchanged and the listener's loop exits through `err_report` |
| Server.Target | server.cpp:83 | the target epoll-set index is below numThreads when numThreads >= 1 |
| Server.RoundRobinNext | server.cpp:80-83 | consecutive connections go to consecutive sets, wrapping from the last set to set 0; the pattern repeats every numThreads connections |
| Server.BuildEpollSets | server.cpp:224-238 | main builds exactly max(numThreads, 1) empty sets (set 0 for the listener), and one worker with index w + 1 for each of the other sets |
| Server.Server.constructor | server.cpp:33-37 | the counter and `conn_nb` start at 0, and the epoll sets are built as BuildEpollSets says |
| Server.Server.RegisterListener | server.cpp:51-55 | the listening descriptor is appended to set 0 and nothing else changes |
| Server.Server.OnListenEvent | server.cpp:78-88 | the process exits only when accept returned 1; otherwise `conn_nb` grows by exactly 1 (even when accept failed with -1), and a valid descriptor is appended to set `old conn_nb mod numThreads` |
| Server.Server.SendCounter | server.cpp:185-189 | TERMINATE sends one type-4 message carrying the counter narrowed to 32 bits, then closes the connection |
| Server.Server.Apply | server.cpp:177-183 | ADD applies `fetch_add(argument)` and SUB applies `fetch_add(-argument)`, both wrapping; any other type leaves the counter unchanged |
| Server.Server.Pass | server.cpp:165-196 | one pass of the loop either ends it, with the counter and result that Serve gives, or leaves a shorter stream on which Serve still gives the same final outcome |
| Server.Server.ServeConnection | server.cpp:101-134 | the loop on one connection ends with the outcome and counter that Serve gives; on TERMINATE it has sent exactly the reply frame and closed the connection, with the unread octets left behind; otherwise it sent nothing |
| Client.Operations | client.cpp:24-29 | message i is ADD(add) when i is even and SUB(sub) when i is odd, for every i < n |
| Client.OperationsNet | client.cpp:24-29 | the operations hold no TERMINATE and change the counter by ceil(n/2)*add - floor(n/2)*sub |
| Client.ClientRequestsNet | client.cpp:24-40 | the request sequence holds exactly one TERMINATE, as its last message, after operations worth Expected |
| Client.ClientSession | client.cpp:20-52 | served from counter value c, a client's session gets the reply c + Expected (wrapped to 64 bits, narrowed to 32), and nothing it sent is left unread |
| Client.ClientReadsReply | client.cpp:49-62 | the client's `recv_msg` of the reply frame yields type 4 with that value as its argument |
| Client.ExampleSession | client.cpp:24-40 | four messages of ADD 5 / SUB 2 on a counter at 0 get the reply 6 |
| Client.RepeatedSessions | client.cpp:86-96 | k client sessions served one after another leave the counter at k * Expected, wrapped to 64 bits |
| Client.SendOperations | client.cpp:24-37 | the loop writes the frames of the alternating operations in order, cut where the connection stops accepting |
| Client.RunClient | client.cpp:20-64 | the client writes all operation frames and then the TERMINATE frame, cut where the connection stops accepting; it reads exactly one message; the value printed is that message's argument, or 0 when the receive failed |

## Left out

- Sockets, `accept`, epoll waiting and threads are not modelled. A connection is a `Socket` value, and an epoll set is the list of descriptors registered in it.
- The counter and `conn_nb` are fields of one sequential object. This captures one interleaving of the threads; atomicity and races between connections are not modelled.
- `rio.h` is not part of this model. Its `rio_readn` is modelled as a take of up to n octets that stops at end of stream, with read errors treated as end of stream. Its `rio_writen` is modelled as an append that the connection cuts off after `room` octets, returning -1.
- `message.pb.h` is not part of this model. The protobuf payload is replaced by a fixed 12-octet big-endian encoding with a proved round trip. A payload that does not parse yields type 0 and argument 0, as fresh protobuf fields would.
- Utils.ToCharArray: requires 1 <= n <= 9999. `log10` has no digit count for n <= 0, and 10000 or more writes past the 4-octet buffer. `log10` itself is replaced by the integer digit count NumDigits.
- Utils.RecvMsg: requires that the call is defined. A short read of the prefix or the payload leaves part of a buffer uninitialised, and a four-digit prefix lets `atoi` read past its buffer; both are undefined behaviour, marked `RecvUndefined` in RecvSpec and excluded.
- Client.SendOperations: the contract does not state that a failed send_msg leaves the loop running, so all num_msg operations and then the TERMINATE are still attempted. This is not observable in this socket model, where a connection that refused octets accepts no more; a loop that stopped at the first failure would write the same octets. The same holds for Client.RunClient.
- Server.Server.Apply: the negation `-argument` of a SUB is taken as wrapping, so SUB of -2^63 adds 2^63 modulo 2^64. In C++ this negation is signed overflow, which is undefined behaviour. Server.Effect and Serve use the same wrapping reading. The client sends only `int` operands, so it never sends that value.
- Utils.WriteFrame: that the payload write is skipped after a failed prefix write is not observable in this socket model, where a connection that refused octets accepts no more.
- Server.Server.Pass: requires that the loop is defined on the stream (Serve is not `Undefined`), for the reason given for Utils.RecvMsg. The same holds for Server.Server.ServeConnection.
- Server.Server.ServeConnection: a worker's loop on an exhausted stream spins forever without effect. The model ends it with the `Spinning` outcome, and the `Exited` outcome stands for `err_report` ending the process.
- Server.Server.OnListenEvent: requires numThreads >= 1 (the modulo divides by it) and fewer than 2^31 connections so far (`int cur_conn_nb`).
- Client.RunClient: requires that the reply stream does not make `recv_msg` undefined. The client's `ts_printf` output is the returned value.
- `err_report` output, `exit`, `ts_printf` and the DEBUG-build checks are left out. So are argument parsing in both `main`s, the leaked `calloc` buffer of `to_char_array`, and the stack use of the variable-length payload buffers.
- `(i & 0x1) == 0` is modelled as `i % 2 == 0`, which agrees for the non-negative loop index.
