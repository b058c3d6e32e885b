/**
 * The per-socket packet framer of source/connection.cpp and
 * source/connection.h, and the registry of live connections.
 *
 * Each reactor event (a finished header read, a finished body read, a
 * finished write, an expired deadline) is a method on Connection; the
 * reactor's results (the error flag, the clock, the header, the body, the
 * protocol the service port makes and the bytes it reads) are its parameters.
 * The socket is a flag, the outstanding read is a ghost field, and the async
 * writes, the protocol callbacks and the dispatcher tasks are logs.
 */
module Network {
  import opened Bytes
  import opened Wrappers
  import Tools

  /** `close(FORCE_CLOSE)`; a plain `close()` is the graceful `close(false)`. */
  const FORCE_CLOSE: bool := true
  const HEADER_LENGTH: nat := 2
  const CHECKSUM_LENGTH: nat := 4

  /** A bound protocol object, known by its identity only. */
  datatype Protocol = Protocol(id: nat)

  /** An OutputMessage: the bytes it hands to async_write. */
  datatype OutputMessage = OutputMessage(bytes: seq<byte>)

  /** The async_read outstanding on the socket, if any. */
  datatype PendingRead = NoRead | HeaderRead | BodyRead(size: nat)

  /** Tasks handed to the dispatcher. */
  datatype Task = OnConnect(protocol: Protocol) | Release(protocol: Protocol)

  /**
   * Direct calls into the protocol layer: the service port's factory, and the
   * protocol's receive and send hooks, each with the message body and the
   * read cursor (relative to the body's first byte) it sees.
   */
  datatype ProtocolCall =
    | MakeProtocol(checksummed: bool, body: seq<byte>, cursor: nat)
    | RecvFirstMessage(protocol: Protocol, body: seq<byte>, cursor: nat)
    | RecvMessage(protocol: Protocol, body: seq<byte>, cursor: nat)
    | SendMessage(protocol: Protocol, msg: OutputMessage)

  /** How many Protocol::release tasks a task log holds. */
  function ReleaseCount(ts: seq<Task>): nat
  {
    if |ts| == 0 then 0
    else ReleaseCount(ts[..|ts| - 1]) + (if ts[|ts| - 1].Release? then 1 else 0)
  }

  lemma ReleaseCountSnoc(ts: seq<Task>, t: Task)
    ensures ReleaseCount(ts + [t]) == ReleaseCount(ts) + (if t.Release? then 1 else 0)
  {
    assert (ts + [t])[..|ts|] == ts;
  }

  /** The first element of a queue, as a sequence of at most one. */
  function Front<T>(q: seq<T>): (r: seq<T>)
    ensures |r| <= 1 && r <= q
    ensures |r| == 1 <==> q != []
  {
    if q == [] then [] else [q[0]]
  }

  /** `++m_packetsSent` on a uint32_t: wraps to 0 past 2^32 - 1. */
  function Inc32(x: u32): (r: u32)
    ensures x < 0xFFFF_FFFF ==> r == x + 1
    ensures x == 0xFFFF_FFFF ==> r == 0
  {
    (x + 1) % 0x1_0000_0000
  }

  /**
   * `std::max<uint32_t>(1, (now - m_timeConnected) + 1)`: the time_t
   * difference is truncated to 32 bits before the maximum is taken.
   */
  function TimePassed(now: int, timeConnected: int): (r: u32)
    ensures r >= 1
    ensures 0 <= now - timeConnected < 0xFFFF_FFFF ==> r == now - timeConnected + 1
  {
    var d := (now - timeConnected + 1) % 0x1_0000_0000;
    if d < 1 then 1 else d
  }

  /**
   * The packets-per-second test of parseHeader, in integer division: it never
   * trips before more than the limit have been counted, and in the first
   * second it trips exactly past the limit.
   */
  predicate RateExceeded(packetsSent: nat, timePassed: nat, maxPacketsPerSecond: nat)
    requires timePassed >= 1
    ensures RateExceeded(packetsSent, timePassed, maxPacketsPerSecond) ==> packetsSent > maxPacketsPerSecond
    ensures timePassed == 1 ==> (RateExceeded(packetsSent, timePassed, maxPacketsPerSecond) <==> packetsSent > maxPacketsPerSecond)
  {
    DivAtMost(packetsSent, timePassed);
    packetsSent / timePassed > maxPacketsPerSecond
  }

  lemma DivAtMost(x: nat, d: nat)
    requires d >= 1
    ensures x / d <= x
  {
    var q, r := x / d, x % d;
    assert x == q * d + r;
    MulMonotone(1, d, q);
  }

  lemma MulMonotone(x: nat, y: nat, k: nat)
    requires x <= y
    ensures x * k <= y * k
  {
    assert y * k == x * k + (y - x) * k;
  }

  /**
   * The limit is exceeded exactly when at least (max + 1) packets per
   * elapsed second have arrived.
   */
  lemma RateExceededIff(packetsSent: nat, timePassed: nat, maxPacketsPerSecond: nat)
    requires timePassed >= 1
    ensures RateExceeded(packetsSent, timePassed, maxPacketsPerSecond)
        <==> packetsSent >= (maxPacketsPerSecond + 1) * timePassed
  {
    var q, r := packetsSent / timePassed, packetsSent % timePassed;
    assert packetsSent == q * timePassed + r && r < timePassed;
    if q > maxPacketsPerSecond {
      MulMonotone(maxPacketsPerSecond + 1, q, timePassed);
    } else {
      MulMonotone(q, maxPacketsPerSecond, timePassed);
      assert (maxPacketsPerSecond + 1) * timePassed == maxPacketsPerSecond * timePassed + timePassed;
    }
  }

  /** With the default limit of 250, the 251st packet of the first second disconnects. */
  lemma DefaultRateLimit()
    ensures RateExceeded(251, TimePassed(10, 10), 250)
    ensures !RateExceeded(250, TimePassed(10, 10), 250)
    ensures !RateExceeded(501, TimePassed(11, 10), 250) && RateExceeded(502, TimePassed(11, 10), 250)
  {
  }

  /**
   * The header lengths parseHeader accepts; an accepted length leaves room
   * for the header and the body in one message.
   */
  predicate ValidHeaderLength(size: nat)
    ensures ValidHeaderLength(size) <==> 1 <= size <= Tools.NETWORKMESSAGE_MAXSIZE - 17
    ensures ValidHeaderLength(size) ==> size + HEADER_LENGTH < Tools.NETWORKMESSAGE_MAXSIZE
  {
    size != 0 && size < Tools.NETWORKMESSAGE_MAXSIZE - 16
  }

  /** The checksum parsePacket expects: Adler-32 of the bytes after the first four, or 0. */
  function ExpectedChecksum(body: seq<byte>): (r: u32)
    ensures |body| > CHECKSUM_LENGTH && |body| <= Tools.NETWORKMESSAGE_MAXSIZE ==> r == Tools.Adler32(body[CHECKSUM_LENGTH..])
    ensures |body| <= CHECKSUM_LENGTH ==> r == 0
  {
    if |body| > CHECKSUM_LENGTH then Tools.Adler32(body[CHECKSUM_LENGTH..]) else 0
  }

  /**
   * The u32 read at the start of the body. A body shorter than 4 bytes reads
   * whatever word the message buffer holds there, which is taken as input.
   */
  function ReceivedChecksum(body: seq<byte>, staleWord: u32): (r: u32)
    ensures |body| >= CHECKSUM_LENGTH ==> r == DecodeLE(body[..CHECKSUM_LENGTH])
  {
    WidthLimits();
    if |body| >= CHECKSUM_LENGTH then DecodeLE(body[..CHECKSUM_LENGTH]) else staleWord
  }

  /** Where the cursor stands after the checksum step: past the word iff it matched. */
  function BodyCursor(body: seq<byte>, staleWord: u32): (r: nat)
    ensures r == CHECKSUM_LENGTH <==> ReceivedChecksum(body, staleWord) == ExpectedChecksum(body)
    ensures r == 0 <==> ReceivedChecksum(body, staleWord) != ExpectedChecksum(body)
  {
    if ReceivedChecksum(body, staleWord) == ExpectedChecksum(body) then CHECKSUM_LENGTH else 0
  }

  /**
   * A body framed as a checksummed packet (the Adler-32 of a non-empty payload,
   * little-endian, then the payload) is recognised: the cursor ends on the
   * payload's first byte.
   */
  lemma FramedPacketRecognised(payload: seq<byte>, staleWord: u32)
    requires 0 < |payload| <= Tools.NETWORKMESSAGE_MAXSIZE - CHECKSUM_LENGTH
    ensures var body := EncodeLE(Tools.Adler32(payload), CHECKSUM_LENGTH) + payload;
      BodyCursor(body, staleWord) == CHECKSUM_LENGTH && body[BodyCursor(body, staleWord)..] == payload
  {
    var word := EncodeLE(Tools.Adler32(payload), CHECKSUM_LENGTH);
    var body := word + payload;
    WidthLimits();
    assert body[..CHECKSUM_LENGTH] == word && body[CHECKSUM_LENGTH..] == payload;
    DecodeEncode(Tools.Adler32(payload), CHECKSUM_LENGTH);
  }

  /**
   * The checksum step of parsePacket: compute the Adler-32 of the bytes after
   * the first four (0 when there are none), read the word, and step back over
   * it when the two differ.
   */
  method ChecksumStep(body: seq<byte>, staleWord: u32) returns (matched: bool, cursor: nat)
    requires |body| <= Tools.NETWORKMESSAGE_MAXSIZE
    ensures matched <==> ReceivedChecksum(body, staleWord) == ExpectedChecksum(body)
    ensures cursor == BodyCursor(body, staleWord)
    ensures matched ==> cursor == CHECKSUM_LENGTH
    ensures !matched ==> cursor == 0
  {
    var checksum: u32 := 0;
    if |body| > CHECKSUM_LENGTH {
      checksum := Tools.AdlerChecksum(body[CHECKSUM_LENGTH..]);
    }
    var recvChecksum := ReceivedChecksum(body, staleWord);
    cursor := CHECKSUM_LENGTH;
    if recvChecksum != checksum {
      cursor := 0; // no checksum: the body starts at its first byte
    }
    matched := recvChecksum == checksum;
  }

  /** The task log after close() on a connection that was closed or not, bound or not. */
  function AfterCloseTasks(wasClosed: bool, protocol: Option<Protocol>, tasks: seq<Task>): (r: seq<Task>)
    ensures wasClosed || protocol.None? ==> r == tasks
    ensures !wasClosed && protocol.Some? ==> r == tasks + [Release(protocol.value)]
  {
    if wasClosed || protocol.None? then tasks else tasks + [Release(protocol.value)]
  }

  /** Whether close(force) shuts the socket at once. */
  predicate ClosesSocket(wasClosed: bool, queueEmpty: bool, force: bool)
  {
    !wasClosed && (queueEmpty || force)
  }

  class Connection {
    /** connectionState: CONNECTION_STATE_OPEN is false, CONNECTION_STATE_CLOSED is true. */
    var closed: bool
    var receivedFirst: bool
    var packetsSent: u32
    var timeConnected: int
    /** NetworkMessage::getLength of m_msg after the header is parsed. */
    var msgLength: nat
    /** m_messageQueue, front first. */
    var queue: seq<OutputMessage>
    var protocol: Option<Protocol>
    var socketOpen: bool
    /** The async_write calls issued, in order. */
    var writes: seq<OutputMessage>
    /** Protocol callbacks queued on the dispatcher. */
    var tasks: seq<Task>
    /** Direct calls into the protocol layer. */
    var calls: seq<ProtocolCall>

    ghost var pendingRead: PendingRead
    /** Every message send put on the queue. */
    ghost var accepted: seq<OutputMessage>
    /** Messages whose write completed (with or without error). */
    ghost var finished: seq<OutputMessage>
    /** Messages dropped from the queue by a failed write. */
    ghost var discarded: seq<OutputMessage>
    ghost var writeFailed: bool

    ghost predicate Valid()
      reads this`pendingRead, this`closed, this`tasks, this`receivedFirst, this`protocol, this`queue
      reads this`writes, this`finished, this`discarded, this`accepted, this`writeFailed, this`socketOpen
    {
      ReadValid() && TasksValid() && BoundValid() && QueueValid() && DiscardValid() && SocketValid()
    }

    /** A body read is outstanding only for a length parseHeader accepted. */
    ghost predicate ReadValid()
      reads this`pendingRead
    {
      pendingRead.BodyRead? ==> ValidHeaderLength(pendingRead.size)
    }

    /** Protocol::release is queued once, by the close that leaves OPEN. */
    ghost predicate TasksValid()
      reads this`closed, this`tasks
    {
      ReleaseCount(tasks) <= 1 && (!closed ==> ReleaseCount(tasks) == 0)
    }

    /**
     * An OPEN connection that has received its first packet has a protocol,
     * and so has one with messages queued.
     */
    ghost predicate BoundValid()
      reads this`closed, this`receivedFirst, this`protocol, this`queue
    {
      && (!closed && receivedFirst ==> protocol.Some?)
      && (queue != [] ==> protocol.Some?)
    }

    /**
     * Single flight: the one outstanding write is for the queue's front, and
     * every message sent was written, dropped, or is still queued, in order.
     */
    ghost predicate QueueValid()
      reads this`queue, this`writes, this`finished, this`discarded, this`accepted
    {
      && writes == finished + Front(queue)
      && accepted == finished + discarded + queue
    }

    /** Messages are dropped only by a failed write, which closes the connection. */
    ghost predicate DiscardValid()
      reads this`discarded, this`closed, this`queue
    {
      discarded != [] ==> closed && queue == []
    }

    /**
     * A closed connection with nothing left to write has shut its socket,
     * unless a write failed after a graceful close.
     */
    ghost predicate SocketValid()
      reads this`closed, this`queue, this`writeFailed, this`socketOpen
    {
      closed && queue == [] && !writeFailed ==> !socketOpen
    }

    /** Nothing close() could change has changed. */
    twostate predicate Untouched(manager: ConnectionManager)
      reads this`closed, this`tasks, this`socketOpen, manager`connections
    {
      closed == old(closed) && tasks == old(tasks) && socketOpen == old(socketOpen)
      && manager.connections == old(manager.connections)
    }

    /** The effect of close(force), with the queue and the protocol as they were on entry. */
    twostate predicate ClosedNow(manager: ConnectionManager, force: bool)
      reads this`closed, this`tasks, this`socketOpen, manager`connections
    {
      && closed
      && tasks == AfterCloseTasks(old(closed), old(protocol), old(tasks))
      && socketOpen == (old(socketOpen) && !ClosesSocket(old(closed), old(queue) == [], force))
      && manager.connections == old(manager.connections) - {this}
    }

    /** A new connection: OPEN, nothing received, nothing queued, no protocol. */
    constructor (now: int)
      ensures Valid()
      ensures !closed && !receivedFirst && packetsSent == 0 && timeConnected == now
      ensures queue == [] && protocol == None && socketOpen && msgLength == 0
      ensures writes == [] && tasks == [] && calls == []
      ensures pendingRead == NoRead && accepted == [] && finished == [] && discarded == [] && !writeFailed
    {
      closed, receivedFirst := false, false;
      packetsSent, timeConnected := 0, now;
      msgLength := 0;
      queue, protocol, socketOpen := [], None, true;
      writes, tasks, calls := [], [], [];
      pendingRead := NoRead;
      accepted, finished, discarded, writeFailed := [], [], [], false;
    }

    /** accept(): read the first packet's header. */
    method Accept()
      modifies this`pendingRead
      ensures pendingRead == HeaderRead
    {
      pendingRead := HeaderRead;
    }

    /** accept(protocol): bind the protocol, queue its onConnect, then accept(). */
    method AcceptWith(p: Protocol)
      requires Valid()
      modifies this`protocol, this`tasks, this`pendingRead
      ensures Valid()
      ensures protocol == Some(p) && tasks == old(tasks) + [OnConnect(p)] && pendingRead == HeaderRead
    {
      protocol := Some(p);
      ReleaseCountSnoc(tasks, OnConnect(p));
      tasks := tasks + [OnConnect(p)];
      Accept();
    }

    /** closeSocket: shut the socket if it is still open (the destructor does the same). */
    method CloseSocket()
      modifies this`socketOpen
      ensures !socketOpen
    {
      if socketOpen {
        socketOpen := false;
      }
    }

    /**
     * close(force): deregister, then, only when OPEN, become CLOSED, queue
     * Protocol::release for a bound protocol, and shut the socket unless a
     * graceful close still has messages to write.
     */
    method Close(manager: ConnectionManager, force: bool)
      requires Valid()
      modifies this`closed, this`tasks, this`socketOpen, manager`connections
      ensures Valid()
      ensures ClosedNow(manager, force)
    {
      manager.ReleaseConnection(this);
      if closed {
        return;
      }
      Shut(force);
    }

    /** The OPEN case of close(force). */
    method Shut(force: bool)
      requires Valid() && !closed
      modifies this`closed, this`tasks, this`socketOpen
      ensures Valid() && closed
      ensures tasks == AfterCloseTasks(false, protocol, old(tasks))
      ensures socketOpen == (old(socketOpen) && !ClosesSocket(false, queue == [], force))
    {
      assert discarded == [] && ReleaseCount(tasks) == 0;
      closed := true;
      if protocol.Some? {
        ReleaseCountSnoc(tasks, Release(protocol.value));
        tasks := tasks + [Release(protocol.value)];
      }
      if queue == [] || force {
        CloseSocket();
      }
    }

    /**
     * What parseHeader does on an OPEN connection: the rate limit is tested
     * before its window is reset, and the length is checked before the body
     * read is issued.
     */
    twostate predicate HeaderHandled(manager: ConnectionManager, now: int, maxPacketsPerSecond: u32, size: u16)
      reads this`closed, this`tasks, this`socketOpen, manager`connections
      reads this`pendingRead, this`packetsSent, this`timeConnected, this`msgLength
    {
      && Counted(now, maxPacketsPerSecond)
      && (if RateExceeded(Inc32(old(packetsSent)), TimePassed(now, old(timeConnected)), maxPacketsPerSecond) then
            ClosedNow(manager, false) && pendingRead == NoRead && msgLength == old(msgLength)
          else
            LengthChecked(manager, size))
    }

    /**
     * The packet count of parseHeader: incremented with wrap-around, and
     * restarted with a new window when the limit holds and more than 2
     * seconds have passed.
     */
    twostate predicate Counted(now: int, maxPacketsPerSecond: u32)
      reads this`packetsSent, this`timeConnected
    {
      var timePassed := TimePassed(now, old(timeConnected));
      var sent := Inc32(old(packetsSent));
      if !RateExceeded(sent, timePassed, maxPacketsPerSecond) && timePassed > 2 then
        packetsSent == 0 && timeConnected == now
      else
        packetsSent == sent && timeConnected == old(timeConnected)
    }

    /** The length check of parseHeader: a bad length force-closes, a good one starts the body read. */
    twostate predicate LengthChecked(manager: ConnectionManager, size: u16)
      reads this`closed, this`tasks, this`socketOpen, manager`connections, this`pendingRead, this`msgLength
    {
      if ValidHeaderLength(size) then
        Untouched(manager) && pendingRead == BodyRead(size) && msgLength == size + HEADER_LENGTH
      else
        ClosedNow(manager, FORCE_CLOSE) && pendingRead == NoRead && msgLength == old(msgLength)
    }

    /**
     * parseHeader: the 2-byte length header has arrived. A read error
     * force-closes; a connection no longer OPEN is left alone.
     */
    method ParseHeader(manager: ConnectionManager, error: bool, now: int, maxPacketsPerSecond: u32, size: u16)
      requires Valid() && pendingRead == HeaderRead
      modifies this`pendingRead, this`packetsSent, this`timeConnected, this`msgLength
      modifies this`closed, this`tasks, this`socketOpen, manager`connections
      ensures Valid()
      ensures error ==> (ClosedNow(manager, FORCE_CLOSE) && pendingRead == NoRead
        && packetsSent == old(packetsSent) && timeConnected == old(timeConnected) && msgLength == old(msgLength))
      ensures !error && old(closed) ==> (Untouched(manager) && pendingRead == NoRead
        && packetsSent == old(packetsSent) && timeConnected == old(timeConnected) && msgLength == old(msgLength))
      ensures !error && !old(closed) ==> HeaderHandled(manager, now, maxPacketsPerSecond, size)
    {
      if error {
        Close(manager, FORCE_CLOSE);
        pendingRead := NoRead;
        return;
      } else if closed {
        pendingRead := NoRead;
        return;
      }
      ReadHeader(manager, now, maxPacketsPerSecond, size);
    }

    /** The OPEN case of parseHeader. */
    method ReadHeader(manager: ConnectionManager, now: int, maxPacketsPerSecond: u32, size: u16)
      requires Valid() && !closed
      modifies this`pendingRead, this`packetsSent, this`timeConnected, this`msgLength
      modifies this`closed, this`tasks, this`socketOpen, manager`connections
      ensures Valid()
      ensures HeaderHandled(manager, now, maxPacketsPerSecond, size)
    {
      pendingRead := NoRead;
      var exceeded := CountPacket(now, maxPacketsPerSecond);
      if exceeded {
        Close(manager, false);
        return;
      }
      CheckLength(manager, size);
    }

    /** The length check of parseHeader. */
    method CheckLength(manager: ConnectionManager, size: u16)
      requires Valid() && !closed && pendingRead == NoRead
      modifies this`pendingRead, this`msgLength, this`closed, this`tasks, this`socketOpen, manager`connections
      ensures Valid()
      ensures LengthChecked(manager, size)
    {
      if size == 0 || size >= Tools.NETWORKMESSAGE_MAXSIZE - 16 {
        Close(manager, FORCE_CLOSE);
        return;
      }
      msgLength := size + HEADER_LENGTH;
      pendingRead := BodyRead(size);
    }

    /**
     * The packet counting of parseHeader: count the packet, test the rate
     * over the window, and only when the limit holds, start a new window
     * once more than 2 seconds have passed. The source reads the clock twice
     * (connection.cpp:144 and 152); both reads are the one `now` here.
     */
    method CountPacket(now: int, maxPacketsPerSecond: u32) returns (exceeded: bool)
      modifies this`packetsSent, this`timeConnected
      ensures exceeded == RateExceeded(Inc32(old(packetsSent)), TimePassed(now, old(timeConnected)), maxPacketsPerSecond)
      ensures Counted(now, maxPacketsPerSecond)
    {
      var timePassed := TimePassed(now, timeConnected);
      packetsSent := Inc32(packetsSent);
      if packetsSent / timePassed > maxPacketsPerSecond {
        return true;
      }
      if timePassed > 2 {
        timeConnected := now;
        packetsSent := 0;
      }
      return false;
    }

    /**
     * What parsePacket does on an OPEN connection: the checksum word is
     * consumed only when it matches; the first packet binds a protocol (from
     * the service port's factory, or skips the protocol id byte when one is
     * bound), and every packet goes to the protocol before the next header read.
     * The factory takes the message by reference and may read from it: the
     * input `consumed` is how many bytes it reads, and onRecvFirstMessage
     * starts that far past the cursor the factory was given.
     */
    twostate predicate PacketHandled(manager: ConnectionManager, body: seq<byte>, staleWord: u32, made: Option<Protocol>, consumed: nat)
      reads this`closed, this`tasks, this`socketOpen, this`protocol, manager`connections
      reads this`pendingRead, this`receivedFirst, this`calls
    {
      var matched := ReceivedChecksum(body, staleWord) == ExpectedChecksum(body);
      var cursor := BodyCursor(body, staleWord);
      && receivedFirst
      && (if old(receivedFirst) then
            && Untouched(manager) && pendingRead == HeaderRead && protocol == old(protocol)
            && old(protocol).Some? && calls == old(calls) + [RecvMessage(old(protocol).value, body, cursor)]
          else if old(protocol).Some? then
            && Untouched(manager) && pendingRead == HeaderRead && protocol == old(protocol)
            && calls == old(calls) + [RecvFirstMessage(old(protocol).value, body, cursor + 1)]
          else if made.None? then
            && ClosedNow(manager, FORCE_CLOSE) && pendingRead == NoRead && protocol == None
            && calls == old(calls) + [MakeProtocol(matched, body, cursor)]
          else
            && Untouched(manager) && pendingRead == HeaderRead && protocol == made
            && calls == old(calls) + [MakeProtocol(matched, body, cursor), RecvFirstMessage(made.value, body, cursor + consumed)])
    }

    /**
     * parsePacket: the body has arrived. A read error force-closes; a
     * connection no longer OPEN is left alone.
     */
    method ParsePacket(manager: ConnectionManager, error: bool, body: seq<byte>, staleWord: u32, made: Option<Protocol>, consumed: nat)
      requires Valid() && pendingRead == BodyRead(|body|)
      modifies this`pendingRead, this`receivedFirst, this`protocol, this`calls
      modifies this`closed, this`tasks, this`socketOpen, manager`connections
      ensures Valid()
      ensures error ==> (ClosedNow(manager, FORCE_CLOSE) && pendingRead == NoRead
        && receivedFirst == old(receivedFirst) && protocol == old(protocol) && calls == old(calls))
      ensures !error && old(closed) ==> (Untouched(manager) && pendingRead == NoRead
        && receivedFirst == old(receivedFirst) && protocol == old(protocol) && calls == old(calls))
      ensures !error && !old(closed) ==> PacketHandled(manager, body, staleWord, made, consumed)
    {
      if error {
        Close(manager, FORCE_CLOSE);
        pendingRead := NoRead;
        return;
      } else if closed {
        pendingRead := NoRead;
        return;
      }
      ReadPacket(manager, body, staleWord, made, consumed);
    }

    /** The OPEN case of parsePacket. */
    method ReadPacket(manager: ConnectionManager, body: seq<byte>, staleWord: u32, made: Option<Protocol>, consumed: nat)
      requires Valid() && !closed && pendingRead == BodyRead(|body|)
      modifies this`pendingRead, this`receivedFirst, this`protocol, this`calls
      modifies this`closed, this`tasks, this`socketOpen, manager`connections
      ensures Valid()
      ensures PacketHandled(manager, body, staleWord, made, consumed)
    {
      var matched, cursor := ChecksumStep(body, staleWord);
      if receivedFirst {
        pendingRead := HeaderRead;
        calls := calls + [RecvMessage(protocol.value, body, cursor)];
      } else {
        FirstPacket(manager, body, matched, cursor, made, consumed);
      }
    }

    /** The first packet binds the protocol, then goes to onRecvFirstMessage. */
    method FirstPacket(manager: ConnectionManager, body: seq<byte>, matched: bool, cursor: nat, made: Option<Protocol>, consumed: nat)
      requires Valid() && !closed && !receivedFirst
      modifies this`pendingRead, this`receivedFirst, this`protocol, this`calls
      modifies this`closed, this`tasks, this`socketOpen, manager`connections
      ensures Valid() && receivedFirst
      ensures old(protocol).Some? ==> (Untouched(manager) && pendingRead == HeaderRead && protocol == old(protocol)
        && calls == old(calls) + [RecvFirstMessage(old(protocol).value, body, cursor + 1)])
      ensures old(protocol).None? && made.None? ==> (ClosedNow(manager, FORCE_CLOSE) && pendingRead == NoRead
        && protocol == None && calls == old(calls) + [MakeProtocol(matched, body, cursor)])
      ensures old(protocol).None? && made.Some? ==> (Untouched(manager) && pendingRead == HeaderRead && protocol == made
        && calls == old(calls) + [MakeProtocol(matched, body, cursor), RecvFirstMessage(made.value, body, cursor + consumed)])
    {
      if protocol.Some? {
        receivedFirst := true;
        pendingRead := HeaderRead;
        calls := calls + [RecvFirstMessage(protocol.value, body, cursor + 1)]; // past the protocol id byte
        return;
      }
      BindProtocol(manager, body, matched, cursor, made, consumed);
    }

    /**
     * The first packet with no protocol bound: the service port's factory
     * makes one (or none, which force-closes), and it gets the packet from
     * where the factory stopped reading, `consumed` bytes on.
     */
    method BindProtocol(manager: ConnectionManager, body: seq<byte>, matched: bool, cursor: nat, made: Option<Protocol>, consumed: nat)
      requires Valid() && !closed && !receivedFirst && protocol.None?
      modifies this`pendingRead, this`receivedFirst, this`protocol, this`calls
      modifies this`closed, this`tasks, this`socketOpen, manager`connections
      ensures Valid() && receivedFirst
      ensures made.None? ==> (ClosedNow(manager, FORCE_CLOSE) && pendingRead == NoRead
        && protocol == None && calls == old(calls) + [MakeProtocol(matched, body, cursor)])
      ensures made.Some? ==> (Untouched(manager) && pendingRead == HeaderRead && protocol == made
        && calls == old(calls) + [MakeProtocol(matched, body, cursor), RecvFirstMessage(made.value, body, cursor + consumed)])
    {
      calls := calls + [MakeProtocol(matched, body, cursor)];
      if made.None? {
        // close(FORCE_CLOSE) reads neither receivedFirst nor the protocol,
        // so it is called before they are set
        Close(manager, FORCE_CLOSE);
        receivedFirst := true;
        pendingRead := NoRead;
        return;
      }
      receivedFirst := true;
      protocol := made;
      pendingRead := HeaderRead;
      calls := calls + [RecvFirstMessage(protocol.value, body, cursor + consumed)]; // past what the factory read
    }

    /** internalSend: hand the message to the protocol and issue its write. */
    method InternalSend(msg: OutputMessage)
      requires protocol.Some?
      modifies this`calls, this`writes
      ensures calls == old(calls) + [SendMessage(protocol.value, msg)]
      ensures writes == old(writes) + [msg]
    {
      calls := calls + [SendMessage(protocol.value, msg)];
      writes := writes + [msg];
    }

    /**
     * send: dropped unless OPEN; otherwise queued at the back, and written at
     * once only when no write was outstanding.
     */
    method Send(msg: OutputMessage)
      requires Valid()
      requires !closed && queue == [] ==> protocol.Some?
      modifies this`queue, this`accepted, this`writes, this`calls
      ensures Valid()
      ensures old(closed) ==> (queue == old(queue) && accepted == old(accepted)
        && writes == old(writes) && calls == old(calls))
      ensures !old(closed) ==> queue == old(queue) + [msg] && accepted == old(accepted) + [msg]
      ensures !old(closed) && old(queue) == [] ==>
        writes == old(writes) + [msg] && calls == old(calls) + [SendMessage(protocol.value, msg)]
      ensures !old(closed) && old(queue) != [] ==> writes == old(writes) && calls == old(calls)
    {
      if closed {
        return;
      }
      var noPendingWrite := queue == [];
      queue := queue + [msg];
      accepted := accepted + [msg];
      if noPendingWrite {
        InternalSend(msg);
      }
    }

    /**
     * onWriteOperation: the front message's write has completed and leaves
     * the queue. An error drops the rest and force-closes; otherwise the next
     * message is written, or a CLOSED connection with nothing left shuts its socket.
     */
    method OnWriteOperation(manager: ConnectionManager, error: bool)
      requires Valid() && queue != []
      modifies this`queue, this`finished, this`discarded, this`writeFailed, this`writes, this`calls
      modifies this`closed, this`tasks, this`socketOpen, manager`connections
      ensures Valid()
      ensures finished == old(finished) + [old(queue)[0]]
      ensures error ==> (queue == [] && discarded == old(queue)[1..] && writeFailed
        && writes == old(writes) && calls == old(calls) && ClosedNow(manager, FORCE_CLOSE))
      ensures !error ==> (queue == old(queue)[1..] && discarded == old(discarded) && writeFailed == old(writeFailed)
        && closed == old(closed) && tasks == old(tasks) && manager.connections == old(manager.connections))
      ensures !error && queue != [] ==> (socketOpen == old(socketOpen)
        && writes == old(writes) + [queue[0]] && calls == old(calls) + [SendMessage(protocol.value, queue[0])])
      ensures !error && queue == [] ==> (socketOpen == (old(socketOpen) && !closed)
        && writes == old(writes) && calls == old(calls))
    {
      if error {
        WriteFailed(manager);
      } else {
        WriteDone();
      }
    }

    /**
     * The error branch of onWriteOperation. close(FORCE_CLOSE) shuts the
     * socket whatever the queue holds, so it is called before the queue is
     * emptied.
     */
    method WriteFailed(manager: ConnectionManager)
      requires Valid() && queue != []
      modifies this`queue, this`finished, this`discarded, this`writeFailed
      modifies this`closed, this`tasks, this`socketOpen, manager`connections
      ensures Valid()
      ensures finished == old(finished) + [old(queue)[0]]
      ensures queue == [] && discarded == old(queue)[1..] && writeFailed && ClosedNow(manager, FORCE_CLOSE)
    {
      Close(manager, FORCE_CLOSE);
      DropQueued();
    }

    /** After the forced close of a failed write, the written message and the rest leave the queue. */
    method DropQueued()
      requires Valid() && closed && queue != []
      modifies this`queue, this`finished, this`discarded, this`writeFailed
      ensures Valid()
      ensures finished == old(finished) + [old(queue)[0]]
      ensures queue == [] && discarded == old(queue)[1..] && writeFailed
    {
      DropQueue(finished, discarded, queue);
      finished, discarded, queue, writeFailed := finished + [queue[0]], queue[1..], [], true;
    }

    /**
     * The success branch of onWriteOperation: pop the front, then write the
     * next message, or shut the socket of a CLOSED connection with nothing left.
     */
    method WriteDone()
      requires Valid() && queue != []
      modifies this`queue, this`finished, this`writes, this`calls, this`socketOpen
      ensures Valid()
      ensures finished == old(finished) + [old(queue)[0]] && queue == old(queue)[1..]
      ensures queue != [] ==> (socketOpen == old(socketOpen)
        && writes == old(writes) + [queue[0]] && calls == old(calls) + [SendMessage(protocol.value, queue[0])])
      ensures queue == [] ==> (socketOpen == (old(socketOpen) && !closed)
        && writes == old(writes) && calls == old(calls))
    {
      PopQueue(finished, discarded, queue);
      finished := finished + [queue[0]];
      queue := queue[1..];
      if queue != [] {
        InternalSend(queue[0]);
      } else if closed {
        CloseSocket();
      }
    }

    /**
     * handleTimeout: a cancelled deadline does nothing; an expired one
     * force-closes the connection if it is still alive.
     */
    static method HandleTimeout(connection: Connection, manager: ConnectionManager, aborted: bool, alive: bool)
      requires connection.Valid()
      modifies connection`closed, connection`tasks, connection`socketOpen, manager`connections
      ensures connection.Valid()
      ensures aborted || !alive ==> connection.Untouched(manager)
      ensures !aborted && alive ==> connection.ClosedNow(manager, FORCE_CLOSE)
    {
      if aborted {
        return;
      }
      if alive {
        connection.Close(manager, FORCE_CLOSE);
      }
    }
  }

  /** The queue's front moves to the finished messages, and the rest to the dropped ones. */
  lemma DropQueue<T>(finished: seq<T>, discarded: seq<T>, queue: seq<T>)
    requires queue != [] && discarded == []
    ensures finished + discarded + queue == (finished + [queue[0]]) + queue[1..] + []
    ensures finished + Front(queue) == finished + [queue[0]]
  {
    assert queue == [queue[0]] + queue[1..];
  }

  /** The queue's front moves to the finished messages, and the next one is in flight. */
  lemma PopQueue<T>(finished: seq<T>, discarded: seq<T>, queue: seq<T>)
    requires queue != [] && discarded == []
    ensures finished + discarded + queue == (finished + [queue[0]]) + discarded + queue[1..]
    ensures finished + Front(queue) + Front(queue[1..]) == (finished + [queue[0]]) + Front(queue[1..])
  {
    assert queue == [queue[0]] + queue[1..];
  }

  /** Writes leave in send order, at most one at a time. */
  lemma WritesInSendOrder(c: Connection)
    requires c.Valid()
    ensures c.writes <= c.accepted
    ensures |c.writes| <= |c.finished| + 1
    ensures c.queue != [] ==> c.writes[|c.writes| - 1] == c.queue[0]
  {
    if c.queue != [] {
      assert c.discarded == [];
      assert c.accepted == c.finished + c.queue;
    }
  }

  /** The registry of live connections: an unordered_set, so each is held once. */
  class ConnectionManager {
    var connections: set<Connection>

    constructor ()
      ensures connections == {}
    {
      connections := {};
    }

    method CreateConnection(now: int) returns (c: Connection)
      modifies this`connections
      ensures fresh(c) && connections == old(connections) + {c}
      ensures c.Valid() && !c.closed && c.protocol == None && c.queue == [] && c.timeConnected == now
    {
      c := new Connection(now);
      connections := connections + {c};
    }

    /** releaseConnection: erase; a connection not held is no change. */
    method ReleaseConnection(c: Connection)
      modifies this`connections
      ensures connections == old(connections) - {c}
    {
      connections := connections - {c};
    }

    /** closeAll: shut every registered socket, then forget them all. */
    method CloseAll()
      modifies this`connections, connections`socketOpen
      ensures connections == {}
      ensures forall c :: c in old(connections) ==> !c.socketOpen
      ensures forall c :: c in old(connections) && old(c.Valid()) ==> c.Valid()
    {
      var rest := connections;
      while rest != {}
        invariant rest <= old(connections)
        invariant forall c :: c in old(connections) && c !in rest ==> !c.socketOpen
        invariant forall c :: c in old(connections) && old(c.Valid()) ==> c.Valid()
        decreases rest
      {
        var c :| c in rest;
        c.socketOpen := false;
        rest := rest - {c};
      }
      connections := {};
    }
  }
}
