# TcpClientServer in Dafny

A model of a small TCP transfer tool. The client pushes `n` fixed-size request
frames to the server. When every response names a distinct packet that is
in flight, it never keeps more than `min(100000, n)` of them unacknowledged. The server gives each accepted connection a uniquely named
output file. It appends each frame's text payload to that file and answers every
frame with a 5-byte response. It retires the connection when the terminal frame
arrives.

The sockets are taken away:

- the client's reads become an input sequence of responses, and its writes
  become an output sequence of requests;
- each server completion handler becomes one atomic transition over a state.
  That state holds the registry of open clients keyed by file name (each with
  the phase of its read loop: read pending, work queued, or abandoned), the file
  contents on disk, and whether an accept is pending.

Modules, one per source file or component:

- `Bytes` (bytes.dfy): octets and `uint32_t`; the little-endian
  layout of a `uint32_t`; `CString`, which gives the bytes `operator<<` writes
  for a `char` array.
- `Frames` (frames.dfy): the packed `TcpPacketRequest` (4096 bytes) and
  `TcpPacketResponse` (5 bytes), each with an encoder, a decoder and both
  round trips.
- `Connection` (connection.dfy): the request buffer, which
  `get_request_ptr` fills and `get_request` copies out, and `create_response`.
- `Client` (client.dfy): `generate_packet` and `Client::run`,
  driven by a sequence of responses. The in-flight map is characterised without
  reference to the loop: after `i` responses, packet `k` is held if it has been
  sent and no response read since then names it.
- `Server` (server.dfy): `handle_accept`, `handle_read` and
  `do_work` as transitions. `Deliver` runs one connection's whole frame stream.
- `Transfer` (transfer.dfy): one client run against one server
  entry. The client completes, holds nothing in flight at the end, and the file
  gains the greeting `n` times.

The C++ code copies the structs' raw bytes in host order, so the model fixes
the wire byte order to little-endian. A `bool` is one byte holding 0 or 1. Any
other value is not a `bool` object representation, and the decoders reject it.

## Model

| member | source | states |
|---|---|---|
| `Bytes.U32RoundTrip` | models/tcp_request.hpp:10 | Decoding the four little-endian bytes of a `uint32_t` gives the number back. |
| `Bytes.U32BytesRoundTrip` | models/tcp_response.hpp:10 | Any four bytes are the encoding of the number they decode to. |
| `Bytes.CString` | server.cpp:135 | The bytes streamed from a `char` array are a prefix of it with no NUL, and are followed by a NUL unless they are the whole array. |
| `Bytes.CStringOfTerminated` | client.cpp:54 | A NUL-free text copied with its terminator reads back as exactly that text, whatever bytes follow the terminator. |
| `Frames.DecodeBool` | models/tcp_request.hpp:11 | A flag byte decodes if and only if it is 0 or 1, and re-encodes to the same byte. |
| `Frames.EncodeRequest` | models/tcp_request.hpp:7-13 | A request is 4096 bytes: `num` decodes from bytes 0..3, byte 4 is 1 exactly when `is_last`, and bytes 5.. are the payload. The struct is packed, so there is no padding between or after the fields. |
| `Frames.DecodeRequest` | models/tcp_request.hpp:9-13 | Bytes decode to a request if and only if there are exactly 4096 of them and byte 4 is 0 or 1. A short input is a length error. A decoded payload has 4091 bytes. |
| `Frames.EncodeResponse` | models/tcp_response.hpp:9-12 | A response is 5 bytes: `num` decodes from bytes 0..3, and byte 4 is 1 exactly when `done`. |
| `Frames.DecodeResponse` | models/tcp_response.hpp:9-12 | Bytes decode to a response if and only if there are exactly 5 of them and byte 4 is 0 or 1. |
| `Frames.RequestLayout` | models/tcp_request.hpp:12 | The size constants equal the `sizeof` values of the packed structs: 4096 for a request, 4091 for its payload array, 5 for a response. |
| `Frames.RequestRoundTrip` | models/tcp_request.hpp:9-13 | Decoding an encoded request with a 4091-byte payload gives the request back. |
| `Frames.RequestBytesRoundTrip` | models/tcp_request.hpp:9-13 | Any 4096 bytes whose byte 4 is 0 or 1 decode, and re-encode to the identical bytes. |
| `Frames.ResponseRoundTrip` | models/tcp_response.hpp:9-12 | Decoding an encoded response gives the response back. |
| `Frames.ResponseBytesRoundTrip` | models/tcp_response.hpp:9-12 | Any 5 bytes whose byte 4 is 0 or 1 decode, and re-encode to the identical bytes. |
| `Frames.PayloadSentInFull` | models/tcp_request.hpp:12 | Every payload byte goes on the wire at offset 5 + i, including the bytes after the text's terminator. |
| `Connection.GetRequest` | connection.hpp:21 | The copy is a request exactly when the stored flag byte is 0 or 1. Its wire form is then the stored bytes. |
| `Connection.Fill` | connection.hpp:19 | After a full 4096-byte read into the buffer, `get_request` returns the frame's decoding, independent of earlier contents. |
| `Connection.CreateResponse` | connection.hpp:23-28 | The built response carries the given number and `done` flag. It is a `const` member, so the connection is not changed. |
| `Connection.CreateResponseOnWire` | connection.hpp:23-28 | The peer decodes the written bytes of a built response to the same number and flag. |
| `Connection.CopySurvivesOverwrite` | connection.hpp:19-21 | A copy from `get_request` re-encodes to the bytes stored when it was taken (in a value model this half holds by construction). After a later full read, `get_request` describes the new frame and re-encodes to it. |
| `Client.WindowSize` | client.cpp:12-15 | The window is `min(100000, n)`; for 1 <= n it lies between 1 and n. |
| `Client.GeneratePacket` | client.cpp:49-55 | Packet `num` carries `num`. It is terminal exactly when `num == n - 1`. Its payload is 4091 bytes, reads as "Hello from Client!\n", and has a NUL right after that text. |
| `Client.PayloadIndependentOfPadding` | client.cpp:50-54 | Whatever bytes `strcpy` leaves after the terminator, the receiver reads exactly the greeting. |
| `Client.OneTerminalPacket` | client.cpp:49-55 | Over a run, packets are numbered 0..n-1 in sending order. Exactly one is terminal, and it is the last one sent. |
| `Client.SentAfter` | client.cpp:62-92 | After `i` responses the send counter is between the window size and n. It is either n or the window size plus `i`. |
| `Client.AtMostOneSendPerResponse` | client.cpp:86-92 | The send counter never decreases, and each response admits at most one new packet (exactly one while any remain). |
| `Client.Erase` | client.cpp:84 | `erase` removes the key and keeps every other entry; a missing key is ignored. |
| `Client.Emplace` | client.cpp:65 | `emplace` adds the key; an absent key gets the new value, and existing entries keep theirs. |
| `Client.InitialWindowGrows` | client.cpp:63-66 | Sending packet `m` of the window adds exactly that packet to the in-flight map. |
| `Client.InFlightStep` | client.cpp:84-92 | The in-flight map after response `i` equals the map before it with that response's number erased and the next unsent packet, if any, added. |
| `Client.InFlightOfWellBehaved` | client.cpp:84-91 | When every response names a distinct packet that is already sent, the in-flight keys are exactly the packets sent and not yet acknowledged. |
| `Client.WindowBound` | client.cpp:84-91 | With such responses the map holds the packets sent minus the responses read, which is never more than the window. After n responses it is empty. |
| `Client.WellBehavedIffInFlight` | client.cpp:84-91 | "Each response names a distinct packet already sent" holds if and only if each response names a packet in flight when it is read. |
| `Client.FillWindow` | client.cpp:62-67 | The first loop sends packets 0..w-1 in order. Afterwards the in-flight map holds exactly those keys, w of them. |
| `Client.OnResponse` | client.cpp:84-92 | One response-loop iteration moves the counter, the sent packets and the in-flight map from their values after `i` responses to those after `i + 1`. |
| `Client.Run` | client.cpp:58-94 | Three outcomes. (1) The run completes exactly when n responses arrive, all `done`; packets 0..n-1 were then each sent once, in order. (2) A `done == false` response stops it with nothing erased and nothing more sent. (3) Running out of responses stops it the same way. With well-behaved responses the map never exceeds the window and ends empty. |
| `Server.SinkName` | server.cpp:83-84 | A file name is the dump folder, `vltt_`, the identifier and `.txt`, in that order. |
| `Server.SinkNameInjective` | server.cpp:83-88 | Distinct identifiers give distinct file names, so two open connections never share a registry entry. |
| `Server.StartAccept` | server.cpp:72-78 | Arming an accept leaves the registry, the files and the folder as they were, and an accept is then pending. |
| `Server.Start` | server.cpp:19-26 | A new server has no clients and has an accept pending. |
| `Server.HandleAccept` | server.cpp:80-96 | A successful accept adds exactly one entry under a new name, with its read pending. The file keeps its old content, or starts empty if it did not exist. Other entries and files are untouched. A failed accept changes nothing. Another accept is armed in both cases. |
| `Server.HandleRead` | server.cpp:109-119 | A full read leaves the frame in the buffer and queues its `do_work` (phase `Working`); `get_request` then yields the frame's decoding. A failed or short read queues nothing and arms no further read: the entry stays, `Abandoned`. No file is written and other entries are untouched either way. |
| `Server.DoWork` | server.cpp:121-150 | Runs only on a queued frame. A request appends its payload's C-string to that client's file and writes one response with the same number and `done = true`. A non-terminal one re-arms the read and keeps the entry; a terminal one removes the entry. A frame whose flag is not a `bool` abandons the entry, with the file unchanged and nothing written. Nothing else changes. |
| `Server.Deliver` | server.cpp:109-150 | After one connection's frames are processed in order, its file has gained the concatenation of their C-string payloads. The responses are one per frame, in order. The entry is gone exactly when the last frame was terminal. |
| `Transfer.ServerAnswersWellBehaved` | server.cpp:138-143 | The server's answers to a run's packets name each sent packet once, in order, all `done`. |
| `Transfer.RunAgainstServer` | client.cpp:58-94 | A client run of n packets against the server completes. It sends packets 0..n-1 and ends with nothing in flight, having held at most the window. The file gains the greeting n times, the entry is removed, and nothing else changes. |

## Left out

- Boost.Asio sockets, `connect`, `accept`, `read` and `write`: replaced by sequences of frames and responses, and by the transitions' inputs (`ReadResult`, the `failed` flag of an accept).
- The `boost::asio::thread_pool`, the per-client `std::mutex` and the order in which queued `do_work` jobs run: every `do_work` is one atomic step, in arrival order. With two or more workers the source can run the job for frame N+1 before the job for frame N takes the lock, so the file can receive payloads out of order. A sequential model cannot express that.
- The registry being changed from several threads without a lock: a concurrency defect with no sequential counterpart.
- UUID generation: the identifier is a parameter, and `HandleAccept` requires that its file name is not already registered. On a collision the `insert` in `handle_accept` would keep the old entry; that case is not modelled.
- File open, write and close failures, and the server destructor: the file system is a map from names to contents that never fails.
- Send errors on the client (`send_packet` only logs them): every write is assumed to succeed.
- `main` on both sides, and the client's `atoi`: the packet count is required to be between 1 and `INT_MAX` (`Client.ValidCount`). A count of zero or less is not modelled; a negative one would turn into a huge `size_t` window.
- Host endianness: the byte order is fixed to little-endian.
- Frame flag bytes other than 0 and 1: not a `bool`, so reading them is undefined behaviour in C++. The decoders return `NotABool`, and `DoWork` abandons the connection without a response.
- Payload bytes after the greeting's terminator: `generate_packet` leaves them uninitialised. The model zero-fills them, and `Client.PayloadIndependentOfPadding` shows the server's output does not depend on them.
- `Bytes.CString`: a payload with no NUL makes `operator<<` read past the array. The model takes the whole array instead.
- A response numbering a packet above `INT_MAX` converts to a negative key in `erase`. It is not in the map either way, so the model erases the number unchanged.
- `Transfer.RunAgainstServer`: client and server are composed one after the other rather than interleaved. This is sound for the streams they exchange: the server's answers depend only on the frames in order, and the client's sends depend only on how many answers it has read.
