# Connection framing, checksums, property streams and configuration of a game login server

This project is a Dafny model of the core of a C++ game server derived from
The Forgotten Server. It models these parts:

- **Network** (`connection.dfy`): the per-socket `Connection` state machine.
  It covers the registry of live connections (`ConnectionManager`), packet
  framing, the packets-per-second limit and the header-length check. It
  covers the Adler-32 check with its rewind rule and first-packet protocol
  binding. It also covers the single-flight FIFO write queue with deferred
  close, and the deadline handler.
  - Each reactor completion is a method on `Connection`. Its parameters are
    what the reactor reports: the error flag, `time(nullptr)`, the 2-byte
    length header, the body bytes, the protocol the service port's factory
    made, and how many message bytes that factory read.
  - The socket is the flag `socketOpen`. The outstanding `async_read` is the
    ghost field `pendingRead`.
  - Three logs stand for side effects: `writes` holds the `async_write`
    calls, `tasks` holds the dispatcher tasks (`onConnect`, `release`), and
    `calls` holds the direct calls into the protocol layer.
  - `Valid()` states the invariants:
    - `Protocol::release` is queued at most once, and only once CLOSED.
    - At most one write is in flight, and it is for the queue's front.
    - Every message `send` accepted has been written, dropped by a failed
      write, or is still queued, in order.
    - A CLOSED connection with an empty queue has shut its socket, unless
      its last write failed.
- **Tools** (`tools.dfy`): `adlerChecksum`, proved equal to the per-byte
  definition of section 2.2 of RFC 1950. The proof covers the 5552-byte
  chunking, with the running sums staying below 2^32. Also
  `convertIPToString`, proved to fit its 17-byte buffer and to be read back
  into the same address.
- **FileLoader** (`fileloader.dfy`): `PropWriteStream` appends little-endian
  integers and u16-length-prefixed strings to a byte buffer. `PropStream` is
  a bounds-checked cursor reader over those bytes. Writing any sequence of
  values whose strings are at most 65535 bytes, and reading it back, returns
  the same values and leaves nothing unread.
- **Game** (`game.dfy`): `getGameState` and `setGameState`, with its
  absorbing SHUTDOWN state and its one shutdown task. A ghost history of the
  `setGameState` calls ties the stored state to a function of those calls.
- **ConfigJson / ConfigManager** (`configjson.dfy`, `configmanager.dfy`):
  - JSON is modelled as a datatype.
  - `jsonCompareKey` is proved equal to a declarative "every key of the base
    is in the other with the same type name" predicate.
  - The layered lookups `getConfig`, `getString`, `getNumber` and
    `getBoolean`.
  - `loadFile`, `load` and `reset`, which take the already-parsed file
    content as input.
- **Database** (`database.dfy`): the batched INSERT buffer `DBInsert`, the
  quote wrapping of `escapeBlob`, and the column lookups of `DBResult`.
  Whatever MySQL would answer is an input.

Shared helpers: `wrappers.dfy` (`Option`) and `bytes.dfy` (fixed-width
integers and their little-endian encoding, with both round trips).

Constants:
- `NETWORKMESSAGE_MAXSIZE` is declared in `const.h`, which is not part of
  this model. It is fixed at 24590.
- `NetworkMessage::HEADER_LENGTH` is 2 and `CHECKSUM_LENGTH` is 4.

`networkmessage.h` is not part of this model. The body of a message is a byte
sequence, and the read cursor is an offset from the body's first byte. A
body shorter than 4 bytes makes `get<uint32_t>` read whatever the buffer
holds there. The model takes that word as an input (`staleWord`).

The model follows the code as written:
- `parseHeader` and `parsePacket` return without closing when the connection
  is no longer OPEN. They do not force-close.
- The rate limit is tested with the already-incremented counter, before the
  window is reset.
- The `uint32_t` counter wraps around. The elapsed time is truncated to 32
  bits before `std::max`.

## Model

| member | source | states |
|---|---|---|
| `Network.ConnectionManager.constructor` | source/connection.h:56-58 | the registry starts empty |
| `Network.ConnectionManager.CreateConnection` | source/connection.cpp:31-38 | a fresh OPEN connection with no protocol and an empty queue is added to the set |
| `Network.ConnectionManager.ReleaseConnection` | source/connection.cpp:40-45 | the connection leaves the set; releasing one not held changes nothing |
| `Network.ConnectionManager.CloseAll` | source/connection.cpp:47-60 | every registered socket is shut, each connection keeps its invariants, and the set ends empty |
| `Network.Connection.constructor` | source/connection.h:76-130 | a new connection is OPEN, has received nothing, has 0 packets counted, an empty queue, no protocol, and `timeConnected` equal to the construction time |
| `Network.Connection.Accept` | source/connection.cpp:115-130 | the header read of the first packet is issued |
| `Network.Connection.AcceptWith` | source/connection.cpp:107-113 | the protocol is bound, its `onConnect` is queued on the dispatcher, then the header read is issued |
| `Network.Connection.CloseSocket` | source/connection.cpp:87-100 | afterwards the socket is shut; an already shut socket is left alone |
| `Network.Connection.Close` | source/connection.cpp:64-85 | always deregisters; only from OPEN does it become CLOSED and queue `release` (once, and only with a bound protocol); the socket is shut at once iff forced or nothing is queued; a later call changes nothing else; the invariants (release at most once, single flight) are kept |
| `Network.Connection.Shut` | source/connection.cpp:69-85 | the OPEN case of close: CLOSED, `release` queued for a bound protocol, socket shut iff queue empty or forced |
| `Network.Connection.ParseHeader` | source/connection.cpp:132-175 | a read error force-closes; a connection no longer OPEN is left untouched without closing; otherwise rate limit then length check as below |
| `Network.Connection.ReadHeader` | source/connection.cpp:144-170 | exceeding the packet rate closes gracefully and issues no body read; otherwise the length check decides |
| `Network.Connection.CountPacket` | source/connection.cpp:144-154 | the counter is pre-incremented (wrapping at 2^32) and divided by `max(1, now - timeConnected + 1)`; only when the limit holds and that divisor exceeds 2 is the window restarted at `now` with count 0 |
| `Network.Connection.CheckLength` | source/connection.cpp:156-170 | a length of 0 or at least `NETWORKMESSAGE_MAXSIZE - 16` force-closes with no body read; otherwise exactly `size` body bytes are requested and the message length is `size + 2` |
| `Network.Connection.ParsePacket` | source/connection.cpp:177-237 | a read error force-closes; a connection no longer OPEN is left untouched; otherwise the packet is checksum-checked, dispatched, and the next header read issued |
| `Network.Connection.ReadPacket` | source/connection.cpp:189-222 | later packets go to `onRecvMessage` at the cursor the checksum step left; the first goes to the first-packet path |
| `Network.Connection.FirstPacket` | source/connection.cpp:204-219 | `receivedFirst` becomes true; with a protocol already bound, one id byte is skipped before `onRecvFirstMessage`; without one, the factory path below |
| `Network.Connection.BindProtocol` | source/connection.cpp:208-219 | the factory gets the match flag and the message; a null protocol force-closes, otherwise it is bound and gets `onRecvFirstMessage` starting past the bytes the factory read from the message |
| `Network.Connection.InternalSend` | source/connection.cpp:253-268 | `onSendMessage` is called, then exactly one write of that message is issued |
| `Network.Connection.Send` | source/connection.cpp:239-251 | after close the message is dropped; otherwise it goes to the back of the queue and is written at once iff the queue was empty |
| `Network.Connection.OnWriteOperation` | source/connection.cpp:284-301 | exactly the front leaves the queue; an error drops the rest and force-closes; otherwise the new front is written, or a CLOSED connection with nothing left shuts its socket |
| `Network.Connection.WriteFailed` | source/connection.cpp:288-294 | the failed write's message finishes, the rest are discarded unwritten, and the connection is force-closed |
| `Network.Connection.DropQueued` | source/connection.cpp:288-291 | the front finishes and every other queued message is discarded |
| `Network.Connection.WriteDone` | source/connection.cpp:288-300 | the front finishes; the next is written, or the deferred socket close happens |
| `Network.Connection.HandleTimeout` | source/connection.cpp:303-313 | a cancelled timer does nothing; an expired one force-closes a connection that is still alive |
| `Network.WritesInSendOrder` | source/connection.cpp:239-301 | writes are issued in send order, at most one beyond those completed, and the last issued is the queue's front |
| `Network.Inc32` | source/connection.cpp:145 | `++m_packetsSent` on a uint32_t wraps to 0 |
| `Network.TimePassed` | source/connection.cpp:144 | the divisor is at least 1 and is the elapsed seconds plus 1 when that fits 32 bits |
| `Network.RateExceeded` | source/connection.cpp:145 | the test never trips before more than the limit have been counted, and with a 1-second divisor it trips exactly past the limit |
| `Network.RateExceededIff` | source/connection.cpp:144-149 | integer division exceeds the limit iff at least (limit + 1) times the divisor packets were counted |
| `Network.DefaultRateLimit` | source/connection.cpp:144-149 | with limit 250, the 251st packet of the first second disconnects and the 250th does not |
| `Network.ValidHeaderLength` | source/connection.cpp:157 | accepted lengths are 1 to `NETWORKMESSAGE_MAXSIZE - 17`, so header and body fit one message |
| `Network.ExpectedChecksum` | source/connection.cpp:190-196 | the expected checksum is the Adler-32 of the bytes after the first 4, or 0 when there are none |
| `Network.ReceivedChecksum` | source/connection.cpp:198 | the received checksum is the little-endian u32 of the first 4 body bytes |
| `Network.BodyCursor` | source/connection.cpp:198-202 | the cursor ends 4 bytes on iff the checksums agree, and back at the start otherwise |
| `Network.ChecksumStep` | source/connection.cpp:189-202 | a mismatch rewinds the cursor and is not an error; the match flag is what the factory receives |
| `Network.FramedPacketRecognised` | source/connection.cpp:189-202 | a body holding the Adler-32 of its payload followed by the payload is recognised, and the handler sees exactly the payload |
| `Tools.AdlerChecksum` | source/tools.cpp:34-58 | inputs longer than `NETWORKMESSAGE_MAXSIZE` give 0; otherwise the chunked sums, held in 32-bit variables that never overflow, give the RFC 1950 Adler-32 |
| `Tools.SumChunk` | source/tools.cpp:44-55 | summing up to 5552 bytes unreduced and reducing once gives the per-byte reduced sums |
| `Tools.ChunkStep` | source/tools.cpp:48-51 | within a chunk, `a` and `b` stay below 2^32 and congruent to the RFC sums |
| `Tools.AdlerClosedForm` | source/tools.cpp:40-57 | a is (1 + sum of bytes) mod 65521 and b is the sum of the running a values mod 65521 |
| `Tools.AdlerEmpty` | source/tools.cpp:42-57 | the empty input gives 1 |
| `Tools.AdlerHalves` | source/tools.cpp:53-57 | both 16-bit halves of the result are below 65521 |
| `Tools.ConvertIPToString` | source/tools.cpp:22-32 | the text plus its NUL fits the 17-byte buffer |
| `Tools.IPRoundTrip` | source/tools.cpp:26 | the text is the four octets, least significant first, in decimal, separated by dots: parsing it gives back the address |
| `Tools.DecimalRoundTrip` | source/tools.cpp:26 | `%u` prints the decimal digits of the value |
| `Bytes.DecodeEncode` | source/fileloader.h:147-151 | the bytes `write<T>` copies decode back to the value |
| `Bytes.EncodeDecode` | source/fileloader.h:24 | every byte string `memcpy` reads is the encoding of the value it gives |
| `FileLoader.PropWriteStream.constructor` | source/fileloader.h:88 | a new writer's buffer is empty |
| `FileLoader.PropWriteStream.GetStream` | source/fileloader.h:94-97 | reports the buffer and its size without changing it |
| `FileLoader.PropWriteStream.Clear` | source/fileloader.h:99-101 | the buffer becomes empty |
| `FileLoader.PropWriteStream.Write` | source/fileloader.h:147-151 | exactly `sizeof(T)` bytes, the value's representation, are appended |
| `FileLoader.PropWriteStream.WriteRaw` | source/fileloader.h:111-114 | a `_String` appends its bytes with no prefix |
| `FileLoader.PropWriteStream.WriteString` | source/fileloader.h:116-126 | a string of at most 65535 bytes appends its u16 length and its bytes; a longer one appends only a u16 0 |
| `FileLoader.PropWriteStream.WriteBool` | source/fileloader.h:128 | a bool appends one byte, 1 or 0 |
| `FileLoader.PropWriteStream.WriteU8` | source/fileloader.h:129 | appends 1 byte |
| `FileLoader.PropWriteStream.WriteU16` | source/fileloader.h:130 | appends 2 bytes |
| `FileLoader.PropWriteStream.WriteU32` | source/fileloader.h:131 | appends 4 bytes |
| `FileLoader.PropWriteStream.WriteU64` | source/fileloader.h:133 | appends 8 bytes |
| `FileLoader.PropWriteStream.WriteValue` | source/fileloader.h:116-133 | any value appends exactly its encoding |
| `FileLoader.PropStream.constructor` | source/fileloader.h:77-79 | a fresh stream has nothing to read |
| `FileLoader.PropStream.Size` | source/fileloader.h:13-15 | `size()` is the number of bytes left to read, never more than the bytes given |
| `FileLoader.PropStream.Init` | source/fileloader.h:9-12 | the cursor is at the first of the given bytes and `size()` is their count |
| `FileLoader.PropStream.LoadFrom` | source/fileloader.cpp:5-11 | after `reader << writer`, `size()` is the writer's buffer length and the bytes left are the writer's, first byte first; the writer is untouched |
| `FileLoader.PropStream.Read` | source/fileloader.h:18-27 | fails without moving when fewer than `sizeof(T)` bytes remain; otherwise decodes them and advances by exactly `sizeof(T)`; `size()` never grows |
| `FileLoader.PropStream.ReadString` | source/fileloader.h:29-46 | fewer than 2 bytes: fails without moving; fewer than L after the prefix: fails with the prefix consumed; otherwise returns the L bytes and advances by 2 + L |
| `FileLoader.PropStream.Skip` | source/fileloader.h:48-55 | fails without moving when n exceeds `size()`; otherwise advances by n |
| `FileLoader.PropStream.ReadValue` | source/fileloader.h:18-46 | reading a value of the kind written from its encoding returns it and consumes exactly its encoding |
| `FileLoader.PropStream.ReadStrValue` | source/fileloader.h:29-46 | a string written with `>>` reads back whole |
| `FileLoader.PropStream.ReadIntValue` | source/fileloader.h:18-27 | an integer or bool written with `>>` reads back as the same value |
| `FileLoader.WriteAll` | source/fileloader.h:116-133 | writing values in order appends their encodings in order |
| `FileLoader.RoundTrip` | source/fileloader.cpp:5-11 | values written with `>>` and read back after `<<` are the values written, and `size()` ends at 0 |
| `Game.NextState` | source/game.cpp:12-22 | from SHUTDOWN the state stays SHUTDOWN; from any other state it becomes the new state |
| `Game.ShutdownAbsorbing` | source/game.cpp:14-16 | no series of calls leaves SHUTDOWN or queues a shutdown task from it |
| `Game.ShutdownQueuedAtMostOnce` | source/game.cpp:14-35 | a series of calls queues the shutdown task at most once, and exactly once iff it starts outside SHUTDOWN and asks for it |
| `Game.RunSnoc` | source/game.cpp:12-45 | one more `setGameState` call continues from the state, and adds to the shutdown tasks, that the earlier calls left |
| `Game.RunIsLastStored` | source/game.cpp:12-22 | after a series of calls the state is SHUTDOWN once it was asked for, otherwise the last state asked for |
| `Game.ShutdownTaskOnce` | source/game.cpp:14-35 | a game has queued one shutdown task iff it is in SHUTDOWN, and never more than one |
| `Game.Game.constructor` | source/game.h:18-32 | the global game starts zero-initialised, in STARTUP, with nothing queued or stopped |
| `Game.Game.GetGameState` | source/game.cpp:7-10 | the state is the one the `setGameState` calls so far lead to from STARTUP |
| `Game.Game.SetGameState` | source/game.cpp:12-45 | the new state is stored unless the game is in SHUTDOWN; setting the current state again does nothing; only entering SHUTDOWN queues `Game::shutdown` and stops scheduler and dispatcher; the call joins the history and the invariant (state, task count and stopped threads follow from the history) is kept |
| `ConfigJson.Clear` | source/configmanager.cpp:74 | `clear` keeps the value's type |
| `ConfigJson.Find` | source/configjson.cpp:10-20 | a member with the key is found iff one exists |
| `ConfigJson.CompareKey` | source/configjson.cpp:6-32 | when `jsonCompareKey` holds, every key of the base is found in the other with the same type name |
| `ConfigJson.CompareKeyConforms` | source/configjson.cpp:6-32 | `jsonCompareKey` holds iff every key of the base appears in the other with the same type name, recursively into object values; in particular an empty base passes |
| `ConfigJson.CompareKeyExtraKeys` | source/configjson.cpp:6-32 | extra keys in the compared object never make the check fail |
| `ConfigJson.CompareKeyReflexive` | source/configjson.cpp:6-32 | an object with unique keys passes against itself |
| `ConfigJson.ConfigJson.constructor` | source/configjson.h:9 | built from a value, with null defaults |
| `ConfigJson.ConfigJson.GetConfig` | source/configjson.h:28-41 | the result is the first hit of the key in the loaded members followed by the defaults' members: the loaded value shadows the default, and `T()` when neither has it |
| `ConfigJson.ConfigJson.GetTable` | source/configjson.h:13-17 | gives what `getConfig<Json>` gives |
| `ConfigJson.ConfigJson.GetValue` | source/configjson.h:43-52 | `at` on a non-array throws `type_error` and past the end `out_of_range`; otherwise a null element gives `T()` and any other is converted |
| `ConfigJson.ConfigJson.GetValueIsAt` | source/configjson.h:43-52 | with the identity conversion, a value is returned exactly for an index inside an array, and it is the element at that index |
| `ConfigJson.ConfigJson.LoadFile` | source/configjson.cpp:34-58 | a missing file fails and changes nothing; otherwise the old content becomes the defaults and the parsed file the content; a non-empty object checked against non-empty defaults that are not an object throws `invalid_iterator`; otherwise success iff an object, and a key or type mismatch is only logged |
| `ConfigManager.Default` | source/configmanager.h:4-13 | `DefaultJsonConfig[key]` is the value listed for the key |
| `ConfigManager.DefaultKeysUnique` | source/configmanager.h:4-13 | the defaults hold exactly 8 distinct keys |
| `ConfigManager.DefaultContents` | source/configmanager.h:4-13 | `maxPacketsPerSecond` defaults to 250 and `loginPort` to 7171 |
| `ConfigManager.ConfigManager.constructor` | source/configmanager.h:51 | nothing is loaded |
| `ConfigManager.ConfigManager.Load` | source/configmanager.cpp:42-66 | a missing file fails; a non-object parse fails and leaves nothing loaded; an object is loaded and succeeds, a mismatch against the defaults only logged |
| `ConfigManager.ConfigManager.Reset` | source/configmanager.cpp:68-75 | does nothing when not loaded; otherwise empties the object |
| `ConfigManager.ConfigManager.GetString` | source/configmanager.cpp:77-94 | the stored value when loaded, present and a string; the default otherwise |
| `ConfigManager.ConfigManager.GetNumber` | source/configmanager.h:28-45 | the stored number when loaded, present and a number, shadowing the default; the default otherwise |
| `ConfigManager.ConfigManager.GetBooleanAsWritten` | source/configmanager.cpp:96-113 | a stored string throws `type_error`; in every other case the default's value is returned, so a stored boolean is never returned |
| `ConfigManager.ConfigManager.GetBoolean` | source/configmanager.cpp:96-113 | corrected: a stored boolean shadows the default |
| `ConfigManager.GetBooleanCounterexample` | source/configmanager.cpp:108-112 | with `"rsa": false` loaded, the code as written answers true where false is intended |
| `Database.DBInsert.constructor` | source/database.cpp:248-251 | no values, and the count is the query's length |
| `Database.DBInsert.Execute` | source/database.cpp:284-295 | an empty batch succeeds with no query; otherwise `query + values` is sent and the batch and count restart whatever the result |
| `Database.DBInsert.AddRow` | source/database.cpp:253-275 | the row is counted first; past the packet size a non-empty batch is flushed, and a failed flush returns false without appending; the row is appended as `(row)` or `,(row)`, and after a flush its length is not counted |
| `Database.DBInsert.Append` | source/database.cpp:262-273 | the first row gives `(row)`, later ones append `,(row)` |
| `Database.TuplesLength` | source/database.cpp:262-273 | the values text is the rows' lengths plus 3 per row less 1 |
| `Database.LengthUndercounts` | source/database.cpp:253-275 | `m_length` falls short of the statement's length by the brackets and commas and any row appended after a flush |
| `Database.CString` | source/database.cpp:216 | `std::string` of a char pointer is the text up to the first NUL |
| `Database.EscapeBlob` | source/database.cpp:164-182 | the result starts and ends with `'`, is `''` for length 0, and otherwise wraps the escaped text |
| `Database.DBResult.GetString` | source/database.cpp:204-217 | "" for an unknown column or NULL, else the field as a C string |
| `Database.DBResult.GetStream` | source/database.cpp:219-235 | no data and size 0 for an unknown column or NULL, else the field and its length |
| `Database.GetStringOfStream` | source/database.cpp:204-235 | `getString` is empty where `getStream` has no data, and is otherwise the C-string text of that data |

## Left out

- Asio sockets, deadline timers and `async_read`/`async_write` are not modelled as I/O. They become the `socketOpen` flag, the `pendingRead` ghost field and the `writes` log. Timer arming is not tracked, so the 30-second `CONNECTION_READ_TIMEOUT` and `CONNECTION_WRITE_TIMEOUT` do not appear; `HandleTimeout` takes the expiry as an input.
- The `try`/`catch` blocks around timer arming and async initiation in `accept`, `parseHeader`, `parsePacket` and `internalSend` are left out. Their force-close on a `system_error` is not modelled.
- `Connection::getIP` is left out: it reads `remote_endpoint` and calls `htonl`.
- Concurrency is left out: the recursive mutex, the registry mutex, multi-threaded delivery and `shared_ptr`/`weak_ptr` lifetimes. Each handler is atomic. `handleTimeout` takes an "is still alive" flag in place of `weak_ptr::lock`.
- The destructor's `closeSocket` is left out, so a graceful close whose last write failed can leave `socketOpen` set.
- Dispatcher tasks are logged and never run. `Protocol` callbacks are logged and cannot call back into the connection.
- `ProtocolCall` records the whole body and the cursor each hook starts from. The protocol classes are not part of this model, so how many bytes the service port's factory reads from the first message is an input (`consumed`), not derived from their code. `NetworkMessage` decoding beyond the checksum word is not part of this model.
- `Network.Connection.ParseHeader`: `maxPacketsPerSecond` is a parameter, not read from `ConfigJson`.
- `Network.Connection.CountPacket`: the two `time(nullptr)` reads are the one input `now`. A clock tick between them, which would start the restarted window one second later, is not modelled.
- `Tools`: `OTSYS_TIME` reads the clock and `demangle_name` calls platform ABI functions, so both are left out.
- File streams are left out: `PropStream << ifstream` and `PropWriteStream >> ofstream`. Float and double writes are left out too (floating point).
- The reader holds a copy of the writer's bytes instead of pointing into them. Aliasing is therefore not modelled.
- JSON text parsing (nlohmann) is left out. `loadFile` and `load` take the parsed value, or `None` for a missing file.
- `ConfigManager.ConfigManager.GetNumber`: narrowing by `get<T>` to the width of `T` is not modelled, and it returns the unbounded integer. A floating-point `T` (`get<double>`, `static_cast<double>`) is not modelled either (floating point).
- `DefaultJsonConfig[key]` is undefined for a key it lacks, so `GetString`, `GetNumber`, `GetBooleanAsWritten` and `GetBoolean` require a listed key, or a stored value that spares the default lookup: a string, a number, a string (which throws) and a boolean respectively.
- MySQL is left out: `connect`, the `executeQuery`/`storeQuery` retry loops, transactions, `mysql_real_escape_string` and `mysql_fetch_*`. They are inputs: the query outcome, the escape function, the row and its lengths.
- `DBResult::next`/`hasNext` and the `DBResult` constructor are left out, because they fetch rows.
- `DBInsert::addRow(std::ostringstream&)` is left out. It only forwards `row.str()` and clears the stream.
- The database task thread, signal handling, process startup, the login protocol (RSA, XTEA, SHA-1) and account loading are left out.

## Findings

| source | as written | input that shows it | evidently intended | confidence | as-written member | corrected member |
|---|---|---|---|---|---|---|
| source/configmanager.cpp:108-112 | `getBoolean` tests `is_string` and then reads the value with `get<bool>`. A stored string throws `type_error`, and a stored boolean falls back to the default. | config.json `{"rsa": false}`: `getBoolean("rsa")` answers true | test `is_boolean`, so a stored boolean is returned | high (not executed) | `ConfigManager.ConfigManager.GetBooleanAsWritten`, `ConfigManager.GetBooleanCounterexample` | `ConfigManager.ConfigManager.GetBoolean` |
