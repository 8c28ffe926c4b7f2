/**
 * The firmware request protocol: the fixed packet layout
 * `crc:u16 | cmd:u8 | len:u8 | payload`, the packet builders, the receive-side
 * check and dispatch, the session-id allocator and the first-match lookups
 * over the request and artifact lists.
 *
 * The checksum routine `crc16_ccitt_calc` lives outside this code; every
 * member that needs it takes it as a parameter `ccitt`, so what is proved here
 * holds for whatever checksum the platform supplies.
 */
module FwRequests {
  import opened UInt

  const REQUEST_PACKET_SIZE := 58
  const UDP_PORT := 8888
  const MAX_REQUESTS := 20
  const IPV6_ADDR_SIZE := 16
  const FW_NAME_SIZE := 32

  /**
   * Byte offset of the payload union: `crc` (2 bytes), `cmd` and `len` (1 byte
   * each), then the union, whose widest scalar member is a u16 (RIOT's
   * `ipv6_addr_t` is a union of byte-aligned unions), so no padding follows
   * the header.
   */
  const DATA_OFFSET := 4
  /** The largest union variant is `chunk`: a u16 id and REQUEST_PACKET_SIZE bytes. */
  const UNION_SIZE := 2 + REQUEST_PACKET_SIZE
  /** sizeof(struct firmware_packet) */
  const PACKET_SIZE := DATA_OFFSET + UNION_SIZE

  /** Message tags (enum message_type); 0 and 1 and everything above 9 are undefined. */
  const END_CHUNKS: uint8 := 2
  const GET_ARTIFACT: uint8 := 3
  const GET_CHUNK: uint8 := 4
  const RESPONSE_SUMMARY: uint8 := 5
  const RESPONSE_CHUNK: uint8 := 6
  const RESPONSE_ACK_LOOKING_FOR_PACKET: uint8 := 7
  const GET_REPO_ADDR: uint8 := 8
  const RESPONSE_REPO_ADDR: uint8 := 9

  predicate KnownTag(cmd: uint8)
  {
    END_CHUNKS <= cmd <= RESPONSE_REPO_ADDR
  }

  /** enum state: the first four belong to the client role, the last three to the server. */
  datatype State =
    | Done
    | WaitingForSummary
    | PossiblyWaitingForSummary
    | ReceivingChunks
    | SendingSummary
    | SendingChunks
    | WaitingForLocation

  /** enum message_processing_error_code */
  datatype ProcessingError = NoError | WrongCrc | UnknownMessageType
  {
    function Code(): (c: int)
      ensures this == NoError <==> c == 0
      ensures this == WrongCrc <==> c == 1
      ensures this == UnknownMessageType <==> c == 2
    {
      match this
      case NoError => 0
      case WrongCrc => 1
      case UnknownMessageType => 2
    }
  }

  /** An IPv6 address, 16 bytes. */
  type Addr = Bytes

  /** The external checksum routine crc16_ccitt_calc(buffer, length). */
  type Checksum = Bytes -> uint16

  // ---------------------------------------------------------------------------
  // Packets
  // ---------------------------------------------------------------------------

  /** What one builder puts on the wire. */
  datatype Message =
    | GetArtifact(artifact: Bytes)
    | GetChunk(sessionId: uint16, chunkId: uint16)
    | Summary(sessionId: uint16, nrChunks: uint16)
    | Chunk(chunkId: uint16, data: Bytes)
    | Ack
    | GetRepoAddr(requester: Addr, fwName: Bytes)
    | RepoAddr(fwName: Bytes)
    | EndChunks

  /**
   * The arguments a builder can take without writing past the packet. strcpy
   * copies a name and its NUL into the 58-byte `artifact` (or the 32-byte
   * `fw_name`) field and runs on into the rest of the payload union when the
   * name is longer, so only the union's end bounds it; memcpy copies chunk data
   * into the 58-byte `chunk.data` field, which ends with the union.
   */
  predicate WellFormed(m: Message)
  {
    match m
    case GetArtifact(a) => NoNul(a) && |a| < UNION_SIZE
    case Chunk(_, d) => |d| <= REQUEST_PACKET_SIZE
    case GetRepoAddr(rs, n) => |rs| == IPV6_ADDR_SIZE && NoNul(n) && |n| < UNION_SIZE - IPV6_ADDR_SIZE
    case RepoAddr(n) => NoNul(n) && |n| < UNION_SIZE
    case _ => true
  }

  function Tag(m: Message): uint8
  {
    match m
    case GetArtifact(_) => GET_ARTIFACT
    case GetChunk(_, _) => GET_CHUNK
    case Summary(_, _) => RESPONSE_SUMMARY
    case Chunk(_, _) => RESPONSE_CHUNK
    case Ack => RESPONSE_ACK_LOOKING_FOR_PACKET
    case GetRepoAddr(_, _) => GET_REPO_ADDR
    case RepoAddr(_) => RESPONSE_REPO_ADDR
    case EndChunks => END_CHUNKS
  }

  /** The bytes a builder writes at the start of the payload union. */
  function Payload(m: Message): Bytes
  {
    match m
    case GetArtifact(a) => a + [NUL]
    case GetChunk(s, c) => Le16(s) + Le16(c)
    case Summary(s, n) => Le16(s) + Le16(n)
    case Chunk(c, d) => Le16(c) + d
    case Ack => []
    case GetRepoAddr(rs, n) => rs + n + [NUL]
    case RepoAddr(n) => n + [NUL]
    case EndChunks => []
  }

  /** The `len` field a builder stores: the payload length, as the source computes it. */
  function LenField(m: Message): (len: uint8)
    requires WellFormed(m)
    ensures len == |Payload(m)| <= UNION_SIZE
  {
    match m
    case GetArtifact(a) => |a| + 1
    case GetChunk(_, _) => 2 * 2
    case Summary(_, _) => 2 * 2
    case Chunk(_, d) => 2 + |d|
    case Ack => 0
    case GetRepoAddr(_, n) => IPV6_ADDR_SIZE + |n| + 1
    case RepoAddr(n) => |n| + 1
    case EndChunks => 0
  }

  /** total_len: `len` plus the header size, truncated to the u8 it returns. */
  function TotalLen(len: uint8): uint8
  {
    (len + DATA_OFFSET) % 0x100
  }

  /** The bytes over which the checksum of `m` is taken: the packet with crc = 0. */
  function SealedBody(m: Message): Bytes
  {
    [0, 0, Tag(m), |Payload(m)| % 0x100] + Payload(m)
  }

  /** The `total_len` bytes that go on the wire for `m`. */
  function Wire(m: Message, ccitt: Checksum): Bytes
  {
    Le16(ccitt(SealedBody(m))) + SealedBody(m)[2..]
  }

  lemma WireShape(m: Message, ccitt: Checksum)
    requires WellFormed(m)
    ensures |Wire(m, ccitt)| == TotalLen(LenField(m)) == DATA_OFFSET + |Payload(m)| <= PACKET_SIZE
    ensures Wire(m, ccitt)[2] == Tag(m) && Wire(m, ccitt)[3] == LenField(m)
    ensures Wire(m, ccitt)[DATA_OFFSET..] == Payload(m)
  {
  }

  /** The first total_len bytes of a packet holding `m` with checksum field `crc`. */
  lemma SealedImage(m: Message, crc: uint16, union: Bytes)
    requires WellFormed(m) && |union| == UNION_SIZE && union[..|Payload(m)|] == Payload(m)
    ensures (Le16(crc) + [Tag(m), LenField(m)] + union)[..TotalLen(LenField(m))] == Le16(crc) + SealedBody(m)[2..]
    ensures crc == 0 ==> (Le16(crc) + [Tag(m), LenField(m)] + union)[..TotalLen(LenField(m))] == SealedBody(m)
  {
    var p := Payload(m);
    var len := LenField(m);
    var h: Bytes := [Tag(m), len];
    assert len == |p| <= UNION_SIZE;
    assert TotalLen(len) == DATA_OFFSET + |p|;
    assert SealedBody(m) == [0, 0] + h + p;
    PrefixOf(Le16(crc), h, p, union);
    if crc == 0 {
      assert Le16(crc) == [0, 0];
    }
  }

  lemma PrefixOf(c: Bytes, h: Bytes, p: Bytes, rest: Bytes)
    requires |p| <= |rest| && rest[..|p|] == p
    ensures (c + h + rest)[..|c| + |h| + |p|] == c + h + p
  {
  }

  /** struct firmware_packet: the header fields and the payload union. */
  class Packet {
    var crc: uint16
    var cmd: uint8
    var len: uint8
    const data: array<uint8>

    ghost predicate Valid()
      reads this
    {
      data.Length == UNION_SIZE
    }

    /** The packet's bytes in memory. */
    function Image(): (r: Bytes)
      reads this, data
      requires Valid()
      ensures |r| == PACKET_SIZE
    {
      Le16(crc) + [cmd, len] + data[..]
    }

    /** The header and the first `Payload(m)` bytes of the union hold `m`, sealed. */
    ghost predicate Holds(m: Message, ccitt: Checksum)
      reads this, data
      requires Valid()
    {
      && WellFormed(m)
      && cmd == Tag(m)
      && len == LenField(m)
      && data[..|Payload(m)|] == Payload(m)
      && crc == ccitt(SealedBody(m))
    }

    constructor ()
      ensures Valid() && fresh(data)
    {
      data := new uint8[UNION_SIZE];
    }

    /** Writes `bytes` at the start of the union (strcpy / memcpy / field stores). */
    method Store(bytes: Bytes)
      requires Valid() && |bytes| <= UNION_SIZE
      modifies data
      ensures data[..] == bytes + old(data[..])[|bytes|..]
    {
      forall i | 0 <= i < |bytes| {
        data[i] := bytes[i];
      }
    }

    /** Stores the checksum of the first total_len bytes, computed with crc = 0. */
    method Seal(m: Message, ccitt: Checksum)
      requires Valid() && WellFormed(m) && crc == 0
      requires cmd == Tag(m) && len == LenField(m) && data[..|Payload(m)|] == Payload(m)
      modifies this
      ensures Valid() && Holds(m, ccitt) && data[..] == old(data[..])
      ensures Image()[..TotalLen(len)] == Wire(m, ccitt)
    {
      SealedImage(m, crc, data[..]);
      crc := ccitt(Image()[..TotalLen(len)]);
      SealedImage(m, crc, data[..]);
    }

    /** build_get_artifact_packet */
    method BuildGetArtifact(artifact: Bytes, ccitt: Checksum)
      requires Valid() && WellFormed(GetArtifact(artifact))
      modifies this, data
      ensures Valid() && Holds(GetArtifact(artifact), ccitt)
      ensures data[|artifact| + 1..] == old(data[|artifact| + 1..])
      ensures Image()[..TotalLen(len)] == Wire(GetArtifact(artifact), ccitt)
    {
      crc := 0;
      cmd := GET_ARTIFACT;
      len := |artifact| + 1;
      Store(artifact + [NUL]);
      Seal(GetArtifact(artifact), ccitt);
    }

    /** build_get_chunk_packet */
    method BuildGetChunk(sessionId: uint16, chunkId: uint16, ccitt: Checksum)
      requires Valid()
      modifies this, data
      ensures Valid() && Holds(GetChunk(sessionId, chunkId), ccitt)
      ensures data[4..] == old(data[4..])
      ensures Image()[..TotalLen(len)] == Wire(GetChunk(sessionId, chunkId), ccitt)
    {
      crc := 0;
      cmd := GET_CHUNK;
      len := 2 * 2;
      Store(Le16(sessionId) + Le16(chunkId));
      Seal(GetChunk(sessionId, chunkId), ccitt);
    }

    /** build_summary_packet */
    method BuildSummary(sessionId: uint16, nrChunks: uint16, ccitt: Checksum)
      requires Valid()
      modifies this, data
      ensures Valid() && Holds(Summary(sessionId, nrChunks), ccitt)
      ensures data[4..] == old(data[4..])
      ensures Image()[..TotalLen(len)] == Wire(Summary(sessionId, nrChunks), ccitt)
    {
      crc := 0;
      cmd := RESPONSE_SUMMARY;
      len := 2 * 2;
      Store(Le16(sessionId) + Le16(nrChunks));
      Seal(Summary(sessionId, nrChunks), ccitt);
    }

    /** build_chunk_packet: `msg_len` is |chunk|. */
    method BuildChunk(chunkId: uint16, chunk: Bytes, ccitt: Checksum)
      requires Valid() && |chunk| <= REQUEST_PACKET_SIZE
      modifies this, data
      ensures Valid() && Holds(Chunk(chunkId, chunk), ccitt)
      ensures data[2 + |chunk|..] == old(data[2 + |chunk|..])
      ensures Image()[..TotalLen(len)] == Wire(Chunk(chunkId, chunk), ccitt)
    {
      crc := 0;
      cmd := RESPONSE_CHUNK;
      len := 2 + |chunk|;
      Store(Le16(chunkId) + chunk);
      Seal(Chunk(chunkId, chunk), ccitt);
    }

    /** build_ack_packet */
    method BuildAck(ccitt: Checksum)
      requires Valid()
      modifies this
      ensures Valid() && Holds(Ack, ccitt) && data[..] == old(data[..])
      ensures Image()[..TotalLen(len)] == Wire(Ack, ccitt)
    {
      crc := 0;
      cmd := RESPONSE_ACK_LOOKING_FOR_PACKET;
      len := 0;
      Seal(Ack, ccitt);
    }

    /** build_repo_addr */
    method BuildRepoAddr(name: Bytes, ccitt: Checksum)
      requires Valid() && WellFormed(RepoAddr(name))
      modifies this, data
      ensures Valid() && Holds(RepoAddr(name), ccitt)
      ensures data[|name| + 1..] == old(data[|name| + 1..])
      ensures Image()[..TotalLen(len)] == Wire(RepoAddr(name), ccitt)
    {
      crc := 0;
      cmd := RESPONSE_REPO_ADDR;
      Store(name + [NUL]);
      len := |name| + 1;
      Seal(RepoAddr(name), ccitt);
    }

    /** build_req_repo_addr */
    method BuildReqRepoAddr(requester: Addr, name: Bytes, ccitt: Checksum)
      requires Valid() && WellFormed(GetRepoAddr(requester, name))
      modifies this, data
      ensures Valid() && Holds(GetRepoAddr(requester, name), ccitt)
      ensures data[IPV6_ADDR_SIZE + |name| + 1..] == old(data[IPV6_ADDR_SIZE + |name| + 1..])
      ensures Image()[..TotalLen(len)] == Wire(GetRepoAddr(requester, name), ccitt)
    {
      crc := 0;
      cmd := GET_REPO_ADDR;
      len := IPV6_ADDR_SIZE + |name| + 1;
      Store(requester + name + [NUL]);
      Seal(GetRepoAddr(requester, name), ccitt);
    }

    /** build_end_chunks_packet */
    method BuildEndChunks(ccitt: Checksum)
      requires Valid()
      modifies this
      ensures Valid() && Holds(EndChunks, ccitt) && data[..] == old(data[..])
      ensures Image()[..TotalLen(len)] == Wire(EndChunks, ccitt)
    {
      crc := 0;
      cmd := END_CHUNKS;
      len := 0;
      Seal(EndChunks, ccitt);
    }
  }

  /**
   * A sender's use of the builders: fill a fresh packet with the builder for
   * `m` and take the `total_len` bytes that `sendto` transmits.
   */
  method Encode(m: Message, ccitt: Checksum) returns (bytes: Bytes)
    requires WellFormed(m)
    ensures bytes == Wire(m, ccitt)
  {
    var pkt := new Packet();
    match m {
      case GetArtifact(a) => pkt.BuildGetArtifact(a, ccitt);
      case GetChunk(s, c) => pkt.BuildGetChunk(s, c, ccitt);
      case Summary(s, n) => pkt.BuildSummary(s, n, ccitt);
      case Chunk(c, d) => pkt.BuildChunk(c, d, ccitt);
      case Ack => pkt.BuildAck(ccitt);
      case GetRepoAddr(rs, n) => pkt.BuildReqRepoAddr(rs, n, ccitt);
      case RepoAddr(n) => pkt.BuildRepoAddr(n, ccitt);
      case EndChunks => pkt.BuildEndChunks(ccitt);
    }
    bytes := pkt.Image()[..TotalLen(pkt.len)];
  }

  // ---------------------------------------------------------------------------
  // Receiving: process_message
  // ---------------------------------------------------------------------------

  /** A callback of struct request_processing_callback, with the arguments it receives. */
  datatype Event =
    | OnNewSummary(sessionId: uint16, nrChunks: uint16)
    | OnNewChunk(chunkId: uint16, len: uint16, data: Bytes)
    | OnAckFirmwareRequest
    | OnFirmwareRequest(source: Addr, artifact: Bytes)
    | OnChunkRequest(sessionId: uint16, chunkId: uint16)
    | OnRepoRequest(source: Addr, requester: Addr, fwName: Bytes)
    | OnRepoAddr(source: Addr, fwName: Bytes)
    | OnEndChunks

  /** The tag whose case in process_message invokes `e`. */
  function EventTag(e: Event): uint8
  {
    match e
    case OnNewSummary(_, _) => RESPONSE_SUMMARY
    case OnNewChunk(_, _, _) => RESPONSE_CHUNK
    case OnAckFirmwareRequest => RESPONSE_ACK_LOOKING_FOR_PACKET
    case OnFirmwareRequest(_, _) => GET_ARTIFACT
    case OnChunkRequest(_, _) => GET_CHUNK
    case OnRepoRequest(_, _, _) => GET_REPO_ADDR
    case OnRepoAddr(_, _) => RESPONSE_REPO_ADDR
    case OnEndChunks => END_CHUNKS
  }

  /** The received buffer with its crc field zeroed, as process_message leaves it. */
  function ZeroCrc(buf: Bytes): (z: Bytes)
    requires 2 <= |buf|
    ensures |z| == |buf| && z[0] == 0 && z[1] == 0 && z[2..] == buf[2..]
  {
    [0, 0] + buf[2..]
  }

  /** The crc field transmitted in the buffer. */
  function StoredCrc(buf: Bytes): uint16
    requires 2 <= |buf|
  {
    Le16Value(buf[0], buf[1])
  }

  predicate CrcMatches(msgLen: uint16, buf: Bytes, ccitt: Checksum)
    requires 2 <= |buf| && msgLen <= |buf|
  {
    StoredCrc(buf) == ccitt(ZeroCrc(buf)[..msgLen])
  }

  /**
   * The callback the `switch` of process_message selects for the received
   * buffer `buf` (the whole receive buffer), with the arguments it reads out of
   * the payload union. A chunk's length is `len - 2` as a u16, and its data
   * pointer is followed for that many bytes, as far as the buffer goes.
   */
  function Dispatch(source: Addr, buf: Bytes): (e: Option<Event>)
    requires PACKET_SIZE <= |buf|
    ensures e.Some? <==> KnownTag(buf[2])
    ensures e.Some? ==> EventTag(e.value) == buf[2]
  {
    var cmd, len, d := buf[2], buf[3], buf[DATA_OFFSET..];
    if cmd == RESPONSE_SUMMARY then
      Some(OnNewSummary(Le16Value(d[0], d[1]), Le16Value(d[2], d[3])))
    else if cmd == RESPONSE_CHUNK then
      var n: uint16 := (len as int - 2) % 0x1_0000;
      var end := if 2 + n <= |d| then 2 + n else |d|;
      Some(OnNewChunk(Le16Value(d[0], d[1]), n, d[2..end]))
    else if cmd == RESPONSE_ACK_LOOKING_FOR_PACKET then
      Some(OnAckFirmwareRequest)
    else if cmd == GET_ARTIFACT then
      Some(OnFirmwareRequest(source, CString(d)))
    else if cmd == GET_CHUNK then
      Some(OnChunkRequest(Le16Value(d[0], d[1]), Le16Value(d[2], d[3])))
    else if cmd == GET_REPO_ADDR then
      Some(OnRepoRequest(source, d[..IPV6_ADDR_SIZE], CString(d[IPV6_ADDR_SIZE..])))
    else if cmd == RESPONSE_REPO_ADDR then
      Some(OnRepoAddr(source, CString(d)))
    else if cmd == END_CHUNKS then
      Some(OnEndChunks)
    else
      None
  }

  /**
   * What process_message returns and which callback it invokes, for `msgLen`
   * received bytes at the start of the receive buffer `buf`.
   */
  function Process(source: Addr, msgLen: uint16, buf: Bytes, ccitt: Checksum): (r: (ProcessingError, Option<Event>))
    requires PACKET_SIZE <= |buf| && msgLen <= |buf|
    ensures r.0 == WrongCrc <==> !CrcMatches(msgLen, buf, ccitt)
    ensures r.0 == UnknownMessageType <==> CrcMatches(msgLen, buf, ccitt) && !KnownTag(buf[2])
    ensures r.0 == NoError <==> r.1.Some?
    ensures r.1.Some? ==> EventTag(r.1.value) == buf[2]
  {
    if !CrcMatches(msgLen, buf, ccitt) then
      (WrongCrc, None)
    else
      match Dispatch(source, buf)
      case None => (UnknownMessageType, None)
      case Some(e) => (NoError, Some(e))
  }

  /**
   * process_message: zeroes the crc field of the received packet in place,
   * checks the checksum over `msgLen` bytes and reports the callback to invoke.
   */
  method ProcessMessage(source: Addr, msgLen: uint16, msg: array<uint8>, ccitt: Checksum)
    returns (err: ProcessingError, event: Option<Event>)
    requires PACKET_SIZE <= msg.Length && msgLen <= msg.Length
    modifies msg
    ensures msg[..] == ZeroCrc(old(msg[..]))
    ensures (err, event) == Process(source, msgLen, old(msg[..]), ccitt)
  {
    var received := msg[..];
    var crc := Le16Value(msg[0], msg[1]);
    msg[0], msg[1] := 0, 0;
    assert msg[..] == ZeroCrc(received);
    var crcC := ccitt(msg[..msgLen]);
    if crc != crcC {
      return WrongCrc, None;
    }
    event := Dispatch(source, received);
    err := if event.Some? then NoError else UnknownMessageType;
  }

  /** The callback a packet built from `m` must reach, received from `source`. */
  function EventOf(m: Message, source: Addr): Event
    requires WellFormed(m)
  {
    match m
    case GetArtifact(a) => OnFirmwareRequest(source, a)
    case GetChunk(s, c) => OnChunkRequest(s, c)
    case Summary(s, n) => OnNewSummary(s, n)
    case Chunk(c, d) => OnNewChunk(c, |d|, d)
    case Ack => OnAckFirmwareRequest
    case GetRepoAddr(rs, n) => OnRepoRequest(source, rs, n)
    case RepoAddr(n) => OnRepoAddr(source, n)
    case EndChunks => OnEndChunks
  }

  /**
   * Round trip: the `total_len` bytes a builder produces, received into any
   * buffer and processed with `msg_len = total_len`, pass the checksum and
   * invoke exactly the callback of their tag with the encoded fields.
   */
  lemma RoundTrip(m: Message, source: Addr, ccitt: Checksum, buf: Bytes)
    requires WellFormed(m)
    requires PACKET_SIZE <= |buf| && |Wire(m, ccitt)| <= |buf|
    requires buf[..|Wire(m, ccitt)|] == Wire(m, ccitt)
    ensures |Wire(m, ccitt)| <= PACKET_SIZE
    ensures Process(source, |Wire(m, ccitt)|, buf, ccitt) == (NoError, Some(EventOf(m, source)))
  {
    var w := Wire(m, ccitt);
    WireShape(m, ccitt);
    assert ZeroCrc(buf)[..|w|] == SealedBody(m);
    Le16RoundTrip(ccitt(SealedBody(m)));
    assert CrcMatches(|w|, buf, ccitt);
    assert buf[2] == Tag(m) && buf[3] == LenField(m);
    assert buf[DATA_OFFSET..][..|Payload(m)|] == Payload(m);
    DecodePayload(m, source, buf);
  }

  /** Whatever the checksum routine, the callback's arguments are the payload's fields. */
  lemma DecodePayload(m: Message, source: Addr, buf: Bytes)
    requires WellFormed(m) && PACKET_SIZE <= |buf|
    requires buf[2] == Tag(m) && buf[3] == LenField(m)
    requires buf[DATA_OFFSET..][..|Payload(m)|] == Payload(m)
    ensures Dispatch(source, buf) == Some(EventOf(m, source))
  {
    var d := buf[DATA_OFFSET..];
    match m {
      case GetArtifact(a) => DecodeName(a, d);
      case RepoAddr(n) => DecodeName(n, d);
      case GetRepoAddr(rs, n) =>
        assert d[..|Payload(m)|] == rs + (n + [NUL]);
        assert d[..IPV6_ADDR_SIZE] == rs;
        assert d[IPV6_ADDR_SIZE..][..|n| + 1] == d[..|Payload(m)|][IPV6_ADDR_SIZE..];
        DecodeName(n, d[IPV6_ADDR_SIZE..]);
      case GetChunk(s, c) => DecodeWords(s, c, d);
      case Summary(s, n) => DecodeWords(s, n, d);
      case Chunk(c, data) =>
        Le16RoundTrip(c);
        assert d[2..2 + |data|] == data;
      case Ack =>
      case EndChunks =>
    }
  }

  lemma DecodeName(name: Bytes, d: Bytes)
    requires NoNul(name) && |name| < |d| && d[..|name| + 1] == name + [NUL]
    ensures CString(d) == name
  {
    assert d == name + [NUL] + d[|name| + 1..];
    CStringOfTerminated(name, d[|name| + 1..]);
  }

  lemma DecodeWords(x: uint16, y: uint16, d: Bytes)
    requires 4 <= |d| && d[..4] == Le16(x) + Le16(y)
    ensures Le16Value(d[0], d[1]) == x && Le16Value(d[2], d[3]) == y
  {
    assert d[0] == Le16(x)[0] && d[1] == Le16(x)[1] && d[2] == Le16(y)[0] && d[3] == Le16(y)[1];
    Le16RoundTrip(x);
    Le16RoundTrip(y);
  }

  // ---------------------------------------------------------------------------
  // Requests and lookups
  // ---------------------------------------------------------------------------

  /** struct firmware_request */
  datatype Request = Request(
    currentState: State,
    sourceAddress: Addr,
    firmwareName: Bytes,
    localFilename: Bytes,
    fd: int,
    sessionId: uint16,
    currentPacket: uint16,
    nrPackets: uint16)

  /** struct map_entry: an artifact name and the file that holds it. */
  datatype MapEntry = MapEntry(filename: Bytes, artifact: Bytes)

  /** The session id handed out by the k-th call of create_request (counting from 0). */
  function SessionIdAt(k: nat): uint16
  {
    (1 + k) % 0x1_0000
  }

  /** Session ids increase strictly over the first 65535 requests. */
  lemma SessionIdsIncrease(i: nat, j: nat)
    requires i < j < 0xFFFF
    ensures SessionIdAt(i) < SessionIdAt(j)
  {
  }

  /** No id is handed out twice within any 65536 consecutive requests. */
  lemma SessionIdsDistinct(i: nat, j: nat)
    requires i < j < i + 0x1_0000
    ensures SessionIdAt(i) != SessionIdAt(j)
  {
  }

  /** create_request and its static counter `last_session_id`. */
  class RequestAllocator {
    var lastSessionId: uint16
    /** The ids handed out so far, in order. */
    ghost var issued: seq<uint16>

    ghost predicate Valid()
      reads this
    {
      && lastSessionId == SessionIdAt(|issued|)
      && forall k :: 0 <= k < |issued| ==> issued[k] == SessionIdAt(k)
    }

    constructor ()
      ensures Valid() && issued == []
    {
      lastSessionId := 1;
      issued := [];
    }

    /**
     * create_request: a fresh record in `initialState` with the next session
     * id. The record holds the source and the artifact, and the state lands in
     * `current_state`, as the function evidently intends; its copy and state
     * stores as written do not compile.
     */
    method CreateRequest(sourceAddress: Addr, artifact: Bytes, initialState: State) returns (r: Request)
      requires Valid()
      modifies this
      ensures Valid() && issued == old(issued) + [r.sessionId]
      ensures r.sessionId == SessionIdAt(|old(issued)|)
      ensures r == Request(initialState, sourceAddress, artifact, [], 0, old(lastSessionId), 0, 0)
    {
      r := Request(initialState, sourceAddress, artifact, [], 0, lastSessionId, 0, 0);
      lastSessionId := (lastSessionId + 1) % 0x1_0000;
      issued := issued + [r.sessionId];
    }
  }

  /** The first index whose element satisfies `p`, in list order. */
  function FirstIndex<T>(s: seq<T>, p: T -> bool): (r: Option<nat>)
    ensures r.Some? ==> r.value < |s| && p(s[r.value])
    ensures r.Some? ==> forall j :: 0 <= j < r.value ==> !p(s[j])
    ensures r.None? ==> forall j :: 0 <= j < |s| ==> !p(s[j])
  {
    if s == [] then None
    else if p(s[0]) then Some(0)
    else match FirstIndex(s[1..], p)
      case None => None
      case Some(i) => Some(i + 1)
  }

  /** find_request_by_source: the first record for `artifact` from `sourceAddress`. */
  function FindRequestBySource(list: seq<Request>, sourceAddress: Addr, artifact: Bytes): (r: Option<nat>)
    ensures r.Some? ==> (r.value < |list|
      && list[r.value].firmwareName == artifact && list[r.value].sourceAddress == sourceAddress)
    ensures r.Some? ==> forall j :: 0 <= j < r.value ==>
      !(list[j].firmwareName == artifact && list[j].sourceAddress == sourceAddress)
    ensures r.None? <==> forall j :: 0 <= j < |list| ==>
      !(list[j].firmwareName == artifact && list[j].sourceAddress == sourceAddress)
  {
    FirstIndex(list, (q: Request) => q.firmwareName == artifact && q.sourceAddress == sourceAddress)
  }

  /** find_request_by_session: the first record with `sessionId`. */
  function FindRequestBySession(list: seq<Request>, sessionId: uint16): (r: Option<nat>)
    ensures r.Some? ==> r.value < |list| && list[r.value].sessionId == sessionId
    ensures r.Some? ==> forall j :: 0 <= j < r.value ==> list[j].sessionId != sessionId
    ensures r.None? <==> forall j :: 0 <= j < |list| ==> list[j].sessionId != sessionId
  {
    FirstIndex(list, (q: Request) => q.sessionId == sessionId)
  }

  /** find_request_by_artifact: the first record for `artifact`, whatever its source. */
  function FindRequestByArtifact(list: seq<Request>, artifact: Bytes): (r: Option<nat>)
    ensures r.Some? ==> r.value < |list| && list[r.value].firmwareName == artifact
    ensures r.Some? ==> forall j :: 0 <= j < r.value ==> list[j].firmwareName != artifact
    ensures r.None? <==> forall j :: 0 <= j < |list| ==> list[j].firmwareName != artifact
  {
    FirstIndex(list, (q: Request) => q.firmwareName == artifact)
  }

  /** find_by_artifact: the first artifact-to-file entry named `name`. */
  function FindByArtifact(list: seq<MapEntry>, name: Bytes): (r: Option<nat>)
    ensures r.Some? ==> r.value < |list| && list[r.value].artifact == name
    ensures r.Some? ==> forall j :: 0 <= j < r.value ==> list[j].artifact != name
    ensures r.None? <==> forall j :: 0 <= j < |list| ==> list[j].artifact != name
  {
    FirstIndex(list, (e: MapEntry) => e.artifact == name)
  }
}
