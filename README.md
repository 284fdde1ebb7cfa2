# tcpserver `Session`: a verified model of the per-connection protocol

The server in lxy-mystery/tcpserver speaks a framed binary protocol over TCP. Each frame has a 16-byte
little-endian header, struct format `<ccHIQ`: the magic bytes `C` and `X`, a u16 command, a u32 body
length and a u64 sequence. The body follows the header. One `Session` object per connection does the
protocol work:

- `doRequest` reads a header, then the body, which may arrive over several reads.
- Once a body is complete, `doRequest` dispatches the frame to the handler registered for its command
  and stores the request and the reply in `_message`, keyed by sequence, with a 30-second expiry.
- `doResponse` walks a snapshot of the stored keys. It sends and removes every entry that has a
  successful reply with data, and drops every other entry that has expired.

The Dafny project models that state machine and proves what it does.

Modules:

- `Wire` (`wire.dfy`): bytes, the u16/u32/u64 widths, little-endian coding with both round trips, and
  the decimal text the heartbeat answers with.
- `Frames` (`frames.dfy`): `_parseHeader` and the `struct.pack` of a response frame, with the
  round trips between them and the header fields in plain arithmetic.
- `Store` (`store.dfy`): a Python dict as a map plus its insertion order (`d[k] = v`, `del d[k]`,
  `list(d.keys())`), with a representation invariant that every operation keeps.
- `Dispatch` (`dispatch.dfy`): requests, replies, handlers, `processCommand`, `echo` and `heartbeat`.
- `Protocol` (`protocol.dfy`): one `doRequest` call and one `doResponse` call as functions of the
  connection state (`RequestStep`, `FlushAll`). The lemmas about them cover header rejection, the
  remaining-bytes counter, reassembly over any split, dispatch, and flush.
- `Sessions` (`session.dfy`): class `Session`, whose fields are updated in place as the original
  does. Each method is proved to leave exactly the state the `Protocol` functions describe.
  `DoResponse` keeps a loop over the key snapshot, with its invariant.

Outside inputs are parameters:

- What a `recv(n)` call returns is passed in. The predicate `ReadsFit` says it holds at most `n`
  bytes. An empty read is what the peer sends when it closes.
- The clock `round(time.time() * 1000)` is the parameter `now`, in milliseconds below 2^64.
- Each `send` appends a frame to the field `sent`.

Where the model follows the code rather than the protocol's description:

- Magic bytes. The described protocol rejects any header whose magic pair is not `C`,`X`. The code
  (Session.py line 43) rejects only when the first byte is not `C` AND the second is not `X`, so a
  header with one wrong magic byte is accepted. The model does what the code does:
  `Frames.OneWrongMagicAccepted` exhibits such a header, and `Protocol.BadHeaderRejected` states
  exactly which headers the code refuses.
- Heartbeat with an empty body. The described scenario has such a heartbeat answered. In the code,
  completion returns `len(body) > 0` (line 101), so an empty-body frame makes `doRequest` return
  False and the server closes the connection before any flush. `Protocol.EmptyHeartbeatClosesConnection`
  proves this: the reply is stored, yet the call asks for the close.

## Model

| member | source | states |
|---|---|---|
| Frames.ParseHeader | Session.py:35-46 | a header parses iff it has 16 bytes and its first byte is `C` or its second byte is `X` |
| Frames.HeaderFields | Session.py:40-46 | a parsed header's command is bytes 2-3, its length bytes 4-7 and its sequence bytes 8-15, little-endian, in plain arithmetic |
| Frames.OneWrongMagicAccepted | Session.py:43-45 | a header with the first magic byte wrong and the second right is accepted: the `and` test lets it through |
| Frames.ParsePackHeader | Session.py:40-46 | parsing the 16 bytes `struct.pack('<ccHIQ', ...)` writes gives back every field |
| Frames.PackParseHeader | Session.py:40-46 | a 16-byte header with both magic bytes right is exactly the packing of the fields it parses to |
| Frames.PackHeader | Session.py:109-111 | the packed header is 16 bytes long |
| Frames.PackFrame | Session.py:108-111 | a response frame is 16 header bytes plus the data |
| Frames.ParseFrame | Session.py:35-46 | a frame a receiver accepts has a header that parses and exactly `length` body bytes after it |
| Frames.FrameRoundTrip | Session.py:108-111 | the frame `doResponse` packs for a command, sequence and data parses back to that command, sequence, data length and data |
| Wire.FromLE | Session.py:41 | a little-endian value of `n` bytes is below 256^n |
| Wire.ToLE | Session.py:110-111 | little-endian writing into `k` bytes gives `k` bytes |
| Wire.FromLEOfToLE | Session.py:110-111 | decoding what was written little-endian gives back the value |
| Wire.ToLEOfFromLE | Session.py:40-41 | writing back a decoded value gives back the bytes |
| Wire.DecimalText | Session.py:30 | `str(n)` is a non-empty string of ASCII digits |
| Wire.DecimalRoundTrip | Session.py:30 | the number the decimal text of `n` denotes is `n` |
| Wire.DecimalTextOfU64 | Session.py:30 | a millisecond clock reading below 2^64 takes at most 20 digits, so its text fits any frame |
| Dispatch.Echo | Session.py:24-26 | `echo` succeeds and answers with the request body |
| Dispatch.Heartbeat | Session.py:28-30 | `heartbeat` succeeds and answers with digits whose value is the clock reading |
| Dispatch.HeartbeatMonotone | Session.py:28-30 | a later clock reading never gives a smaller heartbeat answer |
| Dispatch.RegisterLastWins | Session.py:32-33 | after two registrations of one command the last handler runs; a registration leaves every other command as it was |
| Dispatch.InitialTable | Session.py:19-21 | with the table `init` installs, command 2 is the heartbeat and every other command answers `(False, None)` |
| Store.Empty | Session.py:14 | the empty dict has no entries, no order, and is well formed |
| Store.Put | Session.py:88-92 | `d[k] = v` maps `k` to `v`, keeps an existing key's place and appends a new key, and keeps the dict well formed |
| Store.Delete | Session.py:114-117 | `del d[k]` removes `k` from the entries and from the order, and keeps the dict well formed |
| Store.Without | Session.py:114-117 | removing a key from a key order keeps exactly the other keys |
| Store.WithoutLists | Session.py:114-117 | removing a key from a listing of a key set lists the set without that key |
| Store.ListsMeans | Session.py:105 | a key order lists a key set iff it has no duplicates and holds exactly the set's keys |
| Store.ValidMeans | Session.py:105 | in a well-formed dict the key order has no duplicates and holds exactly the stored keys |
| Store.DistinctIndices | Session.py:105 | the recursive no-duplicates predicate holds iff no two positions hold the same key |
| Store.DistinctPrefix | Session.py:105 | a prefix of a duplicate-free key order is duplicate-free |
| Store.OccurrencesZero | Session.py:105 | a key occurs zero times in a sequence iff it is not in it |
| Store.PutTwice | Session.py:64-68 | writing the same value under a key twice is writing it once |
| Protocol.Initial | Session.py:14-17 | a new connection has no stored messages and no bytes owed, and satisfies the connection invariant |
| Protocol.Complete | Session.py:84-101 | completing a frame keeps the connection invariant, clears the remaining count and keeps the frame as the current message |
| Protocol.CompleteAfterEarlyPut | Session.py:64-92 | the entry a body continuation writes before completing is overwritten by completion, so it changes nothing |
| Protocol.ContinueStep | Session.py:55-68 | a body read keeps the invariant; remaining plus received stays the declared length |
| Protocol.HeaderStep | Session.py:70-82 | a header read keeps the invariant; after a header parses, remaining plus received is its declared length |
| Protocol.RequestStep | Session.py:54-101 | every `doRequest` call keeps the connection invariant |
| Protocol.Feed | Session.py:55-63 | body reads that do not finish the body append their bytes in order, lower the remaining count by their total and store nothing |
| Protocol.RemainingCountInvariant | Session.py:57-78 | after any call the remaining count is not negative and equals the declared length minus the bytes received; a refused header leaves the state unchanged |
| Protocol.IncompleteReadStoresNothing | Session.py:61-82 | a call that leaves the body incomplete stores nothing and returns whether its read got any byte |
| Protocol.BadHeaderRejected | Session.py:71-73 | a short header, or one with both magic bytes wrong, makes the call return False and change nothing, whatever the body read would return |
| Protocol.ReassemblyIsSplitIndependent | Session.py:55-92 | a body split over any reads gives the same state and return value as one read of the whole body, and nothing is stored before the last read |
| Protocol.CompletionStoresReply | Session.py:84-101 | completion stores the request, `now + 30000` and the reply under the sequence and returns `len(body) > 0`; "ip is invalid" removes the entry and returns True; no other key changes |
| Protocol.UnknownCommandIsNeverAnswered | Session.py:48-51 | an unregistered command stores reply `(False, None)`, which no flush sends |
| Protocol.EmptyHeartbeatClosesConnection | Session.py:74-101 | a heartbeat frame with an empty body gets its reply stored, yet `doRequest` returns False |
| Protocol.SendableKeys | Session.py:107 | the answered keys are exactly the snapshot's keys whose entry has a successful reply with data, without duplicates |
| Protocol.FlushKey | Session.py:106-117 | one pass removes the entry if it is answered or expired and otherwise keeps it |
| Protocol.Flush | Session.py:105-117 | a flush keeps the dict well formed and keeps every key outside the snapshot |
| Protocol.FlushAll | Session.py:103-117 | `doResponse` over the snapshot `list(keys())` keeps the dict well formed |
| Protocol.FlushEntries | Session.py:105-117 | after a flush every entry left is an original one, unchanged; keys outside the snapshot stay; a snapshot key stays iff its entry is neither answered nor expired |
| Protocol.FlushFrames | Session.py:105-114 | the frames sent are the response frames of the answered keys, in snapshot order |
| Protocol.FlushAnswersEachOnce | Session.py:105-114 | each answered key is sent exactly once, as a frame that parses to its command, sequence and data, and nothing else is sent |
| Protocol.UnansweredEntryWaitsForExpiry | Session.py:115-117 | an unanswered entry stays, unchanged, until its expiry, is then dropped, and is never sent |
| Protocol.FlushKeyAfter | Session.py:113 | a pass that sends after earlier frames appends to them what it would send alone |
| Protocol.FlushUpTo | Session.py:105-106 | after the first `i` passes every key not yet visited is still stored |
| Protocol.FlushUpToIsFlush | Session.py:105 | the first `i` passes of the loop are the flush of the first `i` snapshot keys |
| Protocol.FlushUpToAll | Session.py:105 | all passes of the loop are `doResponse`'s flush |
| Protocol.PrefixOfOrder | Session.py:105 | every prefix of a dict's key order is a duplicate-free snapshot of stored keys |
| Protocol.LastNotInPrefix | Session.py:105 | the last key of a duplicate-free snapshot is not among the keys before it |
| Sessions.Session.constructor | Session.py:10-17 | a new session has no messages, no handlers, nothing owed and nothing sent |
| Sessions.Session.Register | Session.py:32-33 | `register` overwrites the handler for the command and changes nothing else |
| Sessions.Session.Init | Session.py:19-21 | `init` registers the heartbeat for command 2 |
| Sessions.Session.DoRequest | Session.py:54-101 | the fields after the call and its return value are those of `RequestStep` on the old fields |
| Sessions.Session.ContinueBody | Session.py:55-101 | a body continuation leaves exactly `ContinueStep`'s state and return value |
| Sessions.Session.NewRequest | Session.py:70-101 | a header read leaves exactly `HeaderStep`'s state and return value, and records the declared length |
| Sessions.Session.Process | Session.py:84-101 | completion in place leaves exactly `Complete`'s state and return value |
| Sessions.Session.DoResponse | Session.py:103-117 | the loop leaves the store `FlushAll` gives and appends its frames, in order, to what was sent |
| Sessions.Session.FlushEntry | Session.py:106-117 | one pass in place does what `FlushKey` does to the store and the sent frames |

## Left out

- `tcpserver.py`, the epoll reactor, is not part of this model. It creates, accepts, registers and
  toggles sockets, and closes the session when `doRequest` returns False.
- `config.py` is not part of this model. It is a constant settings dictionary.
- Logging, `log.basicConfig` in `init`, the `uuid1` session id, the peer address, `doConnect`
  (which only logs and calls `init`) and `close` (which only closes the socket) are left out. None
  of them affects the protocol state.
- GBK decoding and encoding are taken as the identity on bytes, so a body's `len` is its byte count.
  For multi-byte characters the code counts characters on lines 59, 78 and 108, and that is not
  modelled.
- The clock is a natural number of milliseconds below 2^64, not `round(time.time() * 1000)` on a
  float. Each call reads it once. The original reads it on each loop pass of `doResponse` and twice
  on a body continuation.
- `recv` raising `EAGAIN` or another socket error is not modelled. A read returns some bytes, at
  most the requested count, and the empty read means the peer closed.
- `send` is taken to send the whole frame; a partial send is not modelled.
- Handlers run without side effects. The original calls a handler with the sequence only and the
  handler reads the stored request; here it receives that request and the clock reading directly.
- Payloads are shorter than 2^32 bytes, so a body length and a reply's `data_length` always fit
  the u32 length field.
- `echo` is modelled but not registered, as in the original, where its registration is commented
  out.
- Sessions.Session.DoRequest: the work is split into `ContinueBody`, `NewRequest` and `Process`, one
  per branch of the original, and the call's two reads are its parameters.
- Frames.ParseHeader: demands at most 16 bytes, because its argument is what `recv(16)` returned.
- Dispatch.ProcessCommand: has no contract of its own. Its behaviour on unknown and registered
  commands is stated by `Dispatch.RegisterLastWins`, `Dispatch.InitialTable` and
  `Protocol.UnknownCommandIsNeverAnswered`.
