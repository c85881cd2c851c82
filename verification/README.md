# Lottery bet batches: wire protocol and server loop

This project is a Dafny model of the part of the lottery system that moves
bets from the agencies to the central server. Each agency client sends its
bets in batches. The server decodes each batch, stores its bets,
acknowledges it, and hangs up after the final batch.

It models two Python files:

- `shared/protocol.py`: the shared `Protocol` codec.
  - The batch frame: a 1-byte `'N'`/`'L'` tag, then the agency as a
    length-prefixed string, then a 2-byte bet count, then each
    comma-separated field of each bet, length-prefixed. The encoder writes
    every field a bet string has; `decode_batch` reads back five per bet.
  - Its decoder, which reads from a socket.
  - Splitting a payload into packets of at most `max_packet_size` bytes.
  - The acknowledgement, the winners query and the winners list.
- `server/common/server.py`: the `Server` class.
  - `parse_msg`, which turns the decoded comma-joined strings into bets.
  - The per-connection loop: receive, parse, store, ack, until the final
    batch.
  - `run`, `stop`, and the `is_alive` / `_server_running` flags.

Modelling conventions:

- **Sockets.** A connection (`Sockets.Socket`) is a cursor over the finite
  byte sequence the peer sends. It also keeps a log of the payloads this side
  sends and a count of `close()` calls.
- **Exceptions.** Every exception on the modelled paths becomes an `Err` of
  `Results.Result` (what is not modelled is listed under "Left out"):
  - `StreamClosed`: the peer closed before `n` bytes arrived.
  - `Overflow`: `int.to_bytes` does not fit.
  - `NotLatin1`: `str.encode('latin1')` fails.
  - `NotUtf8`: `bytes.decode()` fails.
  - `IndexOutOfRange`: fewer than five fields in `parse_msg`.
  - `AcceptFailed`: accept on a closed listener.
- **Socket methods and parsers.** Each reading method of the protocol is
  proved to agree (`Protocol.Agrees`) with a pure parser over the bytes not
  yet received. The laws about the protocol are then proved on those parsers.
- **The connection loop.** It is proved against `Server.Serve`, a function
  over the whole byte stream of one connection.

Modules: `Results`, `Bytes` (big-endian `to_bytes`/`from_bytes`), `Text`
(`split`, `join`, latin-1 and ASCII), `Sockets`, `Protocol` (constants,
encoder, parsers, socket readers), `Chunking` (`_divide_msg`,
`_send_chunk`), `BatchLaws` (round trips and the frame layout), `Messages`
(send side, ack, winners) and `Server`.

## Model

| member | source | states |
|---|---|---|
| Bytes.BigEndian | shared/protocol.py:54 | the big-endian representation of n < 256^w, most significant byte first, is exactly w bytes long |
| Bytes.FromBytes | shared/protocol.py:72 | `int.from_bytes(s, 'big')` never fails and its value fits in len(s) bytes |
| Bytes.ToBytes | shared/protocol.py:54 | `n.to_bytes(w, 'big')` succeeds exactly when 0 <= n < 256^w; then it yields w bytes that `from_bytes` reads back as n; otherwise it raises an overflow |
| Bytes.FromBigEndian | shared/protocol.py:72 | reading back the big-endian encoding of any n < 256^w gives n |
| Bytes.BigEndianFromBytes | shared/protocol.py:157 | re-encoding what `from_bytes` read, at the same width, gives back the same bytes, so the two are inverse bijections |
| Bytes.FromBytesZero | shared/protocol.py:157-159 | `from_bytes` is 0 exactly when every byte is zero (what `recv_ack` compares with ACK_OK) |
| Bytes.FlattenAppend | shared/protocol.py:123-124 | the bytes put on the wire by two runs of sends are those of the first run followed by those of the second |
| Text.Split | shared/protocol.py:60 | `str.split(',')` returns at least one piece and no piece contains the separator |
| Text.Join | shared/protocol.py:100 | `sep.join(parts)` starts with the first part |
| Text.JoinSeparators | shared/protocol.py:100 | joining n separator-free parts puts exactly n - 1 separators in the text |
| Text.JoinSplit | shared/protocol.py:60 | joining the pieces of a split with the separator rebuilds the string |
| Text.SplitJoin | shared/protocol.py:100 | splitting a join of separator-free pieces gives back exactly those pieces |
| Text.SplitPrefix | shared/protocol.py:60 | splitting w + t, where w holds no separator, glues w onto the first piece of t's split |
| Text.JoinAscii | shared/protocol.py:190 | joining ASCII pieces with an ASCII separator gives ASCII text |
| Text.Latin1 | shared/protocol.py:55 | latin-1 encoding succeeds exactly when every character is below 256; then it maps each character to its code, one byte each |
| Text.Utf8Decode | shared/protocol.py:73 | `.decode()` succeeds exactly when every byte is below 128; then it yields one character per byte with the same code |
| Text.Latin1Utf8 | shared/protocol.py:63 | ASCII text survives latin-1 encoding followed by `.decode()` |
| Protocol.EncodeStr | shared/protocol.py:62-63 | a field encodes exactly when its length fits in LEN_STRING bytes and it is latin-1; the frame is 2 + length bytes and its prefix reads back as the length |
| Protocol.EncodeEach | shared/protocol.py:59-63 | the encoding loop concatenates the items' encodings; when it fails, the error is the error of one of the items |
| Protocol.EncodeBet | shared/protocol.py:60-63 | a bet is encoded field by field after `split(',')`; when it fails, one of its fields failed, with an overflow or a latin-1 error |
| Protocol.BatchFrame | shared/protocol.py:42-64 | the frame `encode_batch` returns: at least 1 + 2 + len(agency) + 2 bytes, whose length prefix reads back as len(agency) and whose count field reads back as len(data); a failure is an overflow or a latin-1 error |
| Protocol.EncodeEachSnoc | shared/protocol.py:59-63 | appending one item to the loop appends its encoding, or the loop fails with that item's error |
| Protocol.EncodeEachFirstError | shared/protocol.py:59-63 | the encoder fails with the error of the first item that does not encode |
| Protocol.EncodeFields | shared/protocol.py:61-63 | the inner loop over the fields of one bet builds the concatenation of their string frames |
| Protocol.EncodeBets | shared/protocol.py:59-63 | the outer loop over the bets builds the concatenation of each bet's frame |
| Protocol.EncodeBatch | shared/protocol.py:42-64 | `encode_batch` returns the batch frame: type tag, agency string, 2-byte count, bets |
| Protocol.RecvExact | shared/protocol.py:71 | `recv_msg(n)` yields exactly the next n bytes when n are pending, and fails with a closed stream otherwise |
| Protocol.ParseStr | shared/protocol.py:66-74 | a successful string read consumes at least its 2-byte length prefix |
| Protocol.ParseStrConsumes | shared/protocol.py:66-74 | `read_str` fails with a closed stream when fewer than 2 + size bytes are pending; otherwise it consumes exactly 2 + size bytes and decodes them |
| Protocol.ParseNumber | shared/protocol.py:76-81 | `read_number` succeeds exactly when 2 bytes are pending; it yields their big-endian value and consumes just those 2 bytes |
| Protocol.ParseBet | shared/protocol.py:95-100 | reading one bet consumes input |
| Protocol.ParseBets | shared/protocol.py:93-100 | reading n bets yields exactly n strings and never grows the input |
| Protocol.ParseMany | shared/protocol.py:94-100 | n reads one after another yield exactly n items in order; the first failure is the result |
| Protocol.ParseFields | shared/protocol.py:95-99 | the five `read_str` calls of one bet yield five fields, the first being what the first read returned |
| Protocol.ParseManyConsumes | shared/protocol.py:94-99 | n reads that each consume at least k bytes yield n items and consume at least n*k bytes |
| Protocol.ParseManyStep | shared/protocol.py:94-100 | one more iteration of the read loop appends the item just read |
| Protocol.ParseManyStops | shared/protocol.py:94-99 | the first failing read inside the loop is the failure of the whole decode |
| Protocol.ParseBatch | shared/protocol.py:83-103 | a decoded batch consumes input; `last_batch` holds exactly when the tag byte is 'L'; no bytes means a closed stream; a tag byte of 128 or more fails to decode |
| Protocol.ReadStr | shared/protocol.py:66-74 | `read_str` on a socket returns, and consumes, what `ParseStr` says about the pending bytes, with its error |
| Protocol.ReadNumber | shared/protocol.py:76-81 | `read_number` on a socket agrees with `ParseNumber` on the pending bytes |
| Protocol.ReadBet | shared/protocol.py:95-100 | reading five fields and joining them with commas agrees with `ParseBet` |
| Protocol.ReadBets | shared/protocol.py:93-100 | the `range(data_len)` loop agrees with `ParseBets` |
| Protocol.DecodeBatch | shared/protocol.py:83-103 | `decode_batch` on a socket agrees with `ParseBatch` on the pending bytes |
| Protocol.RecvBets | shared/protocol.py:135-141 | `recv_bets` agrees with `ParseBatch` on the pending bytes |
| Chunking.Slices | shared/protocol.py:113-114 | the slices `bet[i:i+n]` are non-empty, at most n long, all but the last exactly n, and concatenate back to the message |
| Chunking.DivideMsg | shared/protocol.py:105-115 | the packets concatenate back to the message and none is longer than `max_packet_size` |
| Chunking.SlicesCount | shared/protocol.py:114 | a non-empty message is cut into ceil(len/n) slices |
| Chunking.DivideMsgCount | shared/protocol.py:110-115 | a message shorter than the limit goes as one packet; a longer one goes as ceil(len/max) packets, all full but the last |
| Chunking.SendChunk | shared/protocol.py:117-124 | `_send_chunk` sends exactly the packets of `_divide_msg`, in order, so the wire gains the chunk's bytes |
| BatchLaws.StrRoundTrip | shared/protocol.py:62-74 | an ASCII field shorter than 65536 characters encodes, and `read_str` reads back the same text and leaves the following bytes |
| BatchLaws.ParseStrOf | shared/protocol.py:71-73 | after a size prefix equal to the body's length, `read_str` yields the decoded body and leaves what follows |
| BatchLaws.ManyRoundTrip | shared/protocol.py:59-99 | if each item round-trips, the loop of encodings round-trips through the loop of reads |
| BatchLaws.BetRoundTrip | shared/protocol.py:60-100 | a bet of five comma-free ASCII fields, each shorter than 65536 characters, encodes and decodes back to the same comma-joined string |
| BatchLaws.BetsRoundTrip | shared/protocol.py:59-100 | a list of well-formed bets decodes back to the same list, leaving the following bytes |
| BatchLaws.ParseBatchAt | shared/protocol.py:89-103 | a batch with an ASCII tag is the agency read, the count read and the bet reads in sequence, with the flag taken from the tag |
| BatchLaws.ParseBatchParts | shared/protocol.py:89-103 | successful agency, count and bet reads after a tag give the batch those parts describe |
| BatchLaws.BatchRoundTrip | shared/protocol.py:42-103 | encoding agency, bets and the last-batch flag, then decoding, gives back the same three values and leaves the following bytes |
| BatchLaws.EncodeEachOk | shared/protocol.py:59-63 | the encoding loop succeeds exactly when every item encodes |
| BatchLaws.BetEncodable | shared/protocol.py:60-63 | a bet encodes exactly when each of its comma-separated fields fits in 2 bytes of length and is latin-1 |
| BatchLaws.BatchFrameOk | shared/protocol.py:42-64 | `encode_batch` succeeds exactly when the agency is encodable, there are fewer than 65536 bets and every field of every bet is encodable |
| BatchLaws.EncodeEachLength | shared/protocol.py:59-63 | the loop's output length is the sum of the item widths |
| BatchLaws.BatchFrameLength | shared/protocol.py:42-64 | an encoded batch is 1 + 2 + len(agency) + 2 + the sum over the fields of (2 + len(field)) bytes long |
| BatchLaws.BatchFrameTag | shared/protocol.py:50-53 | the first byte is 'L' exactly for the last batch and 'N' exactly otherwise |
| BatchLaws.DecodedCount | shared/protocol.py:89-94 | a decoded batch holds exactly as many bets as the 2-byte count after the agency says |
| BatchLaws.StrPrefixed | shared/protocol.py:66-74 | bytes appended after a string do not change what `read_str` reads |
| BatchLaws.NumberPrefixed | shared/protocol.py:76-81 | bytes appended after a number do not change what `read_number` reads |
| BatchLaws.BetPrefixed | shared/protocol.py:95-100 | bytes appended after a bet do not change what is read for it |
| BatchLaws.BatchPrefixed | shared/protocol.py:83-103 | a decode that succeeds on a prefix gives the same batch when more bytes follow, and leaves them unread |
| BatchLaws.TruncatedBatchFails | shared/protocol.py:83-103 | a strict prefix of a batch that decoded exactly cannot be decoded |
| BatchLaws.TruncatedFrameFails | shared/protocol.py:42-103 | any strict prefix of an encoded batch fails to decode |
| Messages.SendBets | shared/protocol.py:126-133 | `send_bets` fails, sending nothing, exactly when encoding fails; otherwise it sends the frame in `_divide_msg` packets |
| Messages.SentBatchDecodes | shared/protocol.py:126-141 | the bytes `send_bets` puts on the wire decode, by `recv_bets`, to the batch that was sent |
| Messages.AckFrame | shared/protocol.py:148-149 | an ack is `cant_bytes_ack` bytes; it can be built unless the status is false and the width is zero |
| Messages.SendAck | shared/protocol.py:143-150 | `send_ack` sends one packet holding the ack frame, or fails with an overflow and sends nothing |
| Messages.ParseAck | shared/protocol.py:152-161 | `recv_ack` reads exactly `cant_bytes_ack` bytes and returns true exactly when they are all zero |
| Messages.RecvAck | shared/protocol.py:152-161 | `recv_ack` on a socket agrees with `ParseAck` |
| Messages.AckRoundTrip | shared/protocol.py:143-161 | whenever `send_ack` can build the ack (always for true; for false when the width is non-zero), `recv_ack` returns the status sent and leaves the following bytes |
| Messages.QueryFrame | shared/protocol.py:168 | the query is `cant_bytes_agency` bytes; it can be built exactly when the agency id fits |
| Messages.ParseQuery | shared/protocol.py:178-184 | `recv_ask_for_winners` reads exactly `cant_bytes_agency` bytes |
| Messages.RecvAskForWinners | shared/protocol.py:178-184 | on a socket it agrees with `ParseQuery` |
| Messages.QueryRoundTrip | shared/protocol.py:168-184 | the agency id that is asked for is the id the server reads |
| Messages.WinnersFrame | shared/protocol.py:186-193 | the winners message is a `cant_bytes_agency`-byte length and the latin-1 comma-joined names; it can be built exactly when that length fits and the text is latin-1 |
| Messages.SendWinners | shared/protocol.py:186-193 | `send_winners` sends the size packet, then the chunks of the text; it fails before any send on overflow and after the size on non-latin-1 text |
| Messages.ParseWinners | shared/protocol.py:170-176 | reading the winners consumes at least the size prefix, and fails with a closed stream when not even that is pending |
| Messages.AskForWinners | shared/protocol.py:163-176 | `ask_for_winners` sends the query, then agrees with `ParseWinners`; when the id does not fit it sends and reads nothing |
| Messages.ParseWinnersOf | shared/protocol.py:170-176 | after a size prefix equal to the body's length, the winners read is the decoded body split at the commas, or no winners when it is empty, leaving the following bytes |
| Messages.TextRead | shared/protocol.py:170-193 | the size prefix and latin-1 bytes `send_winners` writes for an ASCII text are read back as that text split at the commas |
| Messages.WinnersText | shared/protocol.py:172-193 | ASCII joined winners travel unchanged: the receiver decodes exactly the joined text |
| Messages.WinnersRoundTrip | shared/protocol.py:163-193 | a list of plain winner names (ASCII, no comma) comes back as the same list, except the one-empty-name list |
| Messages.EmptyNameLost | shared/protocol.py:174-190 | the list holding one empty name is sent like the empty list and comes back empty |
| Server.MakeBet | server/common/server.py:63-65 | a bet is built exactly when its string splits into at least five fields, and it keeps the batch's agency; otherwise indexing raises |
| Server.MakeBets | server/common/server.py:61-66 | the loop succeeds exactly when every string has five fields, and yields one bet per string, in order |
| Server.ParseMsg | server/common/server.py:60-68 | `parse_msg` returns one bet per string, in order, built from its first five fields with the batch's agency, and the batch's last-batch flag |
| Server.FiveFieldsKept | server/common/server.py:63-65 | a bet string that is five comma-free fields joined by commas becomes the bet with exactly those fields |
| Server.ExtraFieldsIgnored | server/common/server.py:63-65 | fields after the fifth do not change the bet |
| Server.SplitAppend | server/common/server.py:63 | splitting `a + ',' + b` gives the pieces of a followed by the pieces of b |
| Server.Serve | server/common/server.py:45-55 | a connection that ends normally ends after a final batch, has stored at least one batch and leaves fewer bytes than it was given |
| Server.Exchange | server/common/server.py:47-51 | the events of one connection: two per stored batch, and every ack in them is a true ack |
| Server.ExchangeOrder | server/common/server.py:47-51 | each stored batch is followed by exactly one ack with status true, before the next batch |
| Server.AcksReadBack | shared/protocol.py:143-161 | the ack packets the server sends for n stored batches are read back by n `recv_ack` calls as true each time, leaving the following bytes |
| Server.ServeStep | server/common/server.py:47-51 | one loop iteration: a final batch ends the session; otherwise the session continues on the remaining bytes |
| Server.ServeFrame | server/common/server.py:47-51 | one well-formed encoded batch is served as its parsed bets, ending the session exactly when it is the last |
| Server.ServeFrames | server/common/server.py:45-51 | when the client sends encoded batches, only the last one final, the server stores each one's bets in order and stops right after the last |
| Server.MsgParses | server/common/server.py:60-68 | every batch of well-formed bets passes `parse_msg`, and its flag is kept |
| Server.Server.constructor | server/common/server.py:8-20 | a new server is alive, its listener is open and nothing has been stored |
| Server.Server.StoreBets | server/common/server.py:50 | `store_bets` records the batch's bets once |
| Server.Server.ServeBatch | server/common/server.py:48-51 | one loop iteration: on failure nothing is stored or sent; on success the bets are stored and one true ack is sent, and the result follows `Serve` |
| Server.Server.HandleClientConnection | server/common/server.py:38-57 | the loop stores and acks the batches of `Serve` in order, sends exactly one `send_ack(True)` packet per stored batch, never acks a failed batch, stops after the last batch, and closes the socket exactly once |
| Server.Server.Accept | server/common/server.py:71-84 | an open listener hands out a fresh connection over the client's bytes; a closed one fails |
| Server.Sessions | server/common/server.py:33-35 | the events of serving each client in turn; every ack among them is a true ack |
| Server.SessionsSnoc | server/common/server.py:33-35 | serving one more client appends exactly that connection's events |
| Server.Server.Run | server/common/server.py:22-35 | while alive with an open listener, the clients are served one after another; while alive after a stop, the first `accept` raises and nothing is served, even with no client left |
| Server.Server.Stop | server/common/server.py:90-97 | `stop` sets `_server_running` to false and closes the listener, but leaves `is_alive` unchanged |
| Sockets.Socket.RecvMsg | shared/protocol.py:71 | `recv_msg(n)` consumes exactly n bytes, or fails and consumes nothing when fewer are pending |
| Sockets.Socket.SendMsg | shared/protocol.py:124 | `send_msg` appends one packet to what has been sent |
| Sockets.Socket.Close | server/common/server.py:57 | `close` is counted once per call |

## Left out

- `shared/socket.py` is not part of this model. `recv_msg(n)` is taken to
  return exactly n bytes or raise when the peer closes first, and
  `send_msg` to send the whole payload.
- `common/utils.py` (`Bet`, `store_bets`) is not part of this model. Storing
  is a ghost trace of `Stored` events, and a bet is a record of the agency
  and the five fields.
- Server.Server.StoreBets: records the bets in the trace and does not model
  the file the real function writes or how it converts the fields.
- `_initialize_config` (environment and `protocol.ini` parsing) is left out;
  the four sizes come in as a `Config` value.
- Logging is left out; it does not change what is sent or stored.
- Text.Utf8Decode: accepts only ASCII bytes. This is weaker than Python's
  UTF-8 decoder, which also accepts multi-byte sequences. Every round-trip
  law is stated for ASCII text.
- Chunking.DivideMsg: takes the message's own length for `bet_size`, which
  is what every caller passes. It requires `max_packet_size > 0`, so two
  configurations are not modelled. With `max_packet_size == 0`, `range`
  with step 0 raises `ValueError`. With a negative `max_packet_size`, the
  source raises nothing: `bet_size < max_packet_size` is false,
  `range(0, bet_size, n)` is empty, `_divide_msg` returns `[]`, and
  `_send_chunk` silently sends nothing. The same requires is on
  Chunking.SendChunk, Messages.SendBets and Messages.SendWinners.
- Socket errors other than the peer closing early, and errors raised
  inside `store_bets`, are not modelled.
- Server.Server.Run: takes the finite list of clients that connect. With the
  listener open, `accept` blocking once they are exhausted is modelled as
  `run` returning; with it closed, `accept` raises whether or not a client is
  left. A SIGTERM
  arriving while a client is served is not modelled; `stop` is a separate
  call between runs.
- `_handle_sigterm` only calls `stop`, so it is modelled by
  Server.Server.Stop.
- `Protocol.__init__` only copies the configuration into fields; it is the
  `Config` value.
- `send_ack(False)` is modelled (Messages.SendAck), but the server never
  sends it.
- The client program and the deployment scripts are not part of this model.
