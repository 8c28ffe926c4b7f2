/**
 * The chunk server: an artifact directory loaded from a manifest, a list of
 * per-client requests (a small state machine per session) and the replies
 * it sends. Each handler is specified by a pure step function on a `Registry`
 * (the server's global state as a value); the `Server` class keeps that state
 * in fields and updates them in place, and its methods are proved to perform
 * exactly those steps.
 *
 * Files are a map from path to contents; a descriptor handed out by `open` is
 * the position of the opened file in `openFiles`, offset by the descriptors
 * already taken. Sent datagrams are appended to `outbox`. `halted` records that the
 * process has stopped (exit, or a crash on a malformed manifest line).
 */
module FirmwareServer {
  import opened UInt
  import opened FwRequests

  /** The receive buffer `mesg[1000]` of the server's main loop. */
  const RECEIVE_BUFFER_SIZE := 1000
  /** "firmwares", the repository directory. */
  const REPOSITORY_BASE_PATH: Bytes := [0x66, 0x69, 0x72, 0x6D, 0x77, 0x61, 0x72, 0x65, 0x73]
  const NEWLINE: uint8 := 0x0A
  const SPACE: uint8 := 0x20
  const SLASH: uint8 := 0x2F
  /**
   * The first descriptor `open` can return for an artifact file: 0, 1 and 2
   * are the standard streams and 3 is the UDP socket main creates first.
   */
  const FIRST_FD := 4

  datatype Datagram = Datagram(dest: Addr, payload: Bytes)

  function Min(a: int, b: int): int
  {
    if a <= b then a else b
  }

  // ---------------------------------------------------------------------------
  // The manifest: fill_repository
  // ---------------------------------------------------------------------------

  /** strstr(s, "<b>") for a one-byte needle: the first position of `b`. */
  function IndexOf(s: Bytes, b: uint8): (r: Option<nat>)
    ensures r.Some? ==> r.value < |s| && s[r.value] == b && b !in s[..r.value]
    ensures r.None? <==> b !in s
  {
    if s == [] then None
    else if s[0] == b then Some(0)
    else match IndexOf(s[1..], b)
      case None => None
      case Some(i) =>
        assert s[..i + 1] == [s[0]] + s[1..][..i];
        Some(i + 1)
  }

  /**
   * One manifest line: the C string is cut at its first newline, and the rest
   * at its first space into the artifact name and the file name. A line
   * without a newline or without a space before it makes the source write
   * through a NULL pointer; that is `None` here.
   */
  function ParseLine(line: Bytes): (r: Option<(Bytes, Bytes)>)
    ensures r.Some? ==> SPACE !in r.value.0 && NEWLINE !in r.value.0 && NEWLINE !in r.value.1
    ensures r.Some? ==> LineOf(r.value.0, r.value.1) <= CString(line)
  {
    SplitLine(CString(line))
  }

  /** The cut of ParseLine on the C string itself. */
  function SplitLine(text: Bytes): (r: Option<(Bytes, Bytes)>)
    ensures r.Some? ==> SPACE !in r.value.0 && NEWLINE !in r.value.0 && NEWLINE !in r.value.1
    ensures r.Some? ==> LineOf(r.value.0, r.value.1) <= text
  {
    match IndexOf(text, NEWLINE)
    case None => None
    case Some(nl) =>
      var head := text[..nl];
      match IndexOf(head, SPACE)
      case None => None
      case Some(sp) =>
        assert head == head[..sp] + [SPACE] + head[sp + 1..];
        assert text[..nl + 1] == head + [NEWLINE];
        Some((head[..sp], head[sp + 1..]))
  }

  /** The manifest line `<name> <file>\n`. */
  function LineOf(name: Bytes, file: Bytes): Bytes
  {
    name + [SPACE] + file + [NEWLINE]
  }

  /** A line `<name> <file>\n` written out by a manifest author is read back as (name, file). */
  lemma ParseLineRoundTrip(name: Bytes, file: Bytes, rest: Bytes)
    requires NoNul(name) && NoNul(file)
    requires SPACE !in name && NEWLINE !in name && NEWLINE !in file
    ensures ParseLine(LineOf(name, file) + rest) == Some((name, file))
  {
    var w := LineOf(name, file);
    var nl := |name| + 1 + |file|;
    var head := name + [SPACE] + file;
    assert w == head + [NEWLINE];
    assert NoNul(w) by {
      forall i | 0 <= i < |w| ensures w[i] != NUL {
        if i < |name| { assert w[i] == name[i]; }
        else if i == |name| { assert w[i] == SPACE; }
        else if i < nl { assert w[i] == file[i - |name| - 1]; }
        else { assert w[i] == NEWLINE; }
      }
    }
    CStringPrefix(w, rest);
    assert NEWLINE !in head by {
      forall i | 0 <= i < |head| ensures head[i] != NEWLINE {
        if i < |name| { assert head[i] == name[i]; }
        else if i > |name| { assert head[i] == file[i - |name| - 1]; }
      }
    }
    assert head[|name|] == SPACE && head[..|name|] == name && head[|name| + 1..] == file;
    ParseLineAt(w + rest, head, name, file);
  }

  /** How ParseLine cuts a buffer whose C string starts with `head` and a newline. */
  lemma ParseLineAt(line: Bytes, head: Bytes, name: Bytes, file: Bytes)
    requires |head| < |CString(line)| && CString(line)[..|head| + 1] == head + [NEWLINE]
    requires NEWLINE !in head
    requires |name| < |head| && head[..|name|] == name && head[|name|] == SPACE && SPACE !in name
    requires head[|name| + 1..] == file
    ensures ParseLine(line) == Some((name, file))
  {
    SplitLineAt(CString(line), head, name, file);
  }

  lemma SplitLineAt(text: Bytes, head: Bytes, name: Bytes, file: Bytes)
    requires |head| < |text| && text[..|head| + 1] == head + [NEWLINE]
    requires NEWLINE !in head
    requires |name| < |head| && head[..|name|] == name && head[|name|] == SPACE && SPACE !in name
    requires head[|name| + 1..] == file
    ensures SplitLine(text) == Some((name, file))
  {
    var nl := |head|;
    assert text[..nl] == head && text[nl] == NEWLINE by {
      assert text[..nl] == text[..nl + 1][..nl];
      assert text[nl] == text[..nl + 1][nl];
    }
    IndexOfIs(text, NEWLINE, nl);
    IndexOfIs(head, SPACE, |name|);
  }

  lemma IndexOfIs(s: Bytes, b: uint8, i: nat)
    requires i < |s| && s[i] == b && b !in s[..i]
    ensures IndexOf(s, b) == Some(i)
  {
    var r := IndexOf(s, b);
    assert b in s;
    assert !(r.value < i);
    assert !(i < r.value);
  }

  /** The C string of a buffer starts with any NUL-free prefix of it. */
  lemma {:induction false} CStringPrefix(w: Bytes, rest: Bytes)
    requires NoNul(w)
    ensures |w| <= |CString(w + rest)| && CString(w + rest)[..|w|] == w
  {
    if w != [] {
      assert (w + rest)[1..] == w[1..] + rest;
      CStringPrefix(w[1..], rest);
    }
  }

  /** sprintf(path, "%s/%s", "firmwares", file) */
  function RepositoryPath(file: Bytes): Bytes
  {
    REPOSITORY_BASE_PATH + [SLASH] + file
  }

  /** One parsed manifest line: an artifact name and the file that holds it. */
  type Listing = (Bytes, Bytes)

  /**
   * The manifest's lines parsed in order, or `None` when some line makes the
   * loop crash.
   */
  function ParseAll(lines: seq<Bytes>): Option<seq<Listing>>
  {
    if lines == [] then Some([])
    else match ParseAll(lines[..|lines| - 1])
      case None => None
      case Some(ls) =>
        match ParseLine(lines[|lines| - 1])
        case None => None
        case Some(l) => Some(ls + [l])
  }

  /** The body of the manifest loop for one parsed line: insert unless the name is known. */
  function LoadLine(dir: seq<MapEntry>, l: Listing): seq<MapEntry>
  {
    if FindByArtifact(dir, l.0).None? then dir + [MapEntry(RepositoryPath(l.1), l.0)] else dir
  }

  /** The directory after the manifest loop has read `ls` into `dir`. */
  function Load(dir: seq<MapEntry>, ls: seq<Listing>): seq<MapEntry>
  {
    if ls == [] then dir else LoadLine(Load(dir, ls[..|ls| - 1]), ls[|ls| - 1])
  }

  /** The file the directory maps `name` to (find_by_artifact, then its filename). */
  function Resolve(dir: seq<MapEntry>, name: Bytes): Option<Bytes>
  {
    match FindByArtifact(dir, name)
    case None => None
    case Some(i) => Some(dir[i].filename)
  }

  /** The position of the first listing of `name`. */
  function FirstNaming(ls: seq<Listing>, name: Bytes): (r: Option<nat>)
    ensures r.Some? ==> r.value < |ls| && ls[r.value].0 == name
    ensures r.Some? ==> forall k :: 0 <= k < r.value ==> ls[k].0 != name
    ensures r.None? <==> forall k :: 0 <= k < |ls| ==> ls[k].0 != name
  {
    if ls == [] then None
    else if ls[0].0 == name then Some(0)
    else match FirstNaming(ls[1..], name)
      case None => None
      case Some(k) => Some(k + 1)
  }

  /** Reference meaning of "the first occurrence wins": the path of the first listing of `name`. */
  function FirstListed(ls: seq<Listing>, name: Bytes): Option<Bytes>
  {
    match FirstNaming(ls, name)
    case None => None
    case Some(k) => Some(RepositoryPath(ls[k].1))
  }

  lemma ResolveSnoc(dir: seq<MapEntry>, e: MapEntry, name: Bytes)
    ensures Resolve(dir + [e], name) ==
      if Resolve(dir, name).Some? then Resolve(dir, name)
      else if e.artifact == name then Some(e.filename) else None
  {
    var d := dir + [e];
    var k := FindByArtifact(d, name);
    match FindByArtifact(dir, name)
    case Some(i) =>
      assert d[i] == dir[i];
      assert k.Some?;
    case None =>
      if e.artifact == name {
        assert d[|dir|] == e;
        assert k.Some?;
      } else {
        assert forall j :: 0 <= j < |d| ==> d[j].artifact != name by {
          forall j | 0 <= j < |d| ensures d[j].artifact != name {
            if j < |dir| { assert d[j] == dir[j]; }
          }
        }
      }
  }

  /**
   * fill_repository keeps the first occurrence: after the manifest is loaded
   * into `dir`, a name already present keeps its file, and any other name maps
   * to `firmwares/<file>` of the first line that names it.
   */
  lemma {:induction false} LoadFirstWins(dir: seq<MapEntry>, ls: seq<Listing>, name: Bytes)
    ensures Resolve(Load(dir, ls), name) ==
      if Resolve(dir, name).Some? then Resolve(dir, name) else FirstListed(ls, name)
  {
    if ls != [] {
      var init, last := ls[..|ls| - 1], ls[|ls| - 1];
      LoadFirstWins(dir, init, name);
      var d := Load(dir, init);
      if FindByArtifact(d, last.0).None? {
        ResolveSnoc(d, MapEntry(RepositoryPath(last.1), last.0), name);
      } else if last.0 == name {
        assert Resolve(d, name).Some?;
      }
      assert ls == init + [last];
      FirstListedSnoc(init, last, name);
    }
  }

  lemma FirstListedSnoc(ls: seq<Listing>, l: Listing, name: Bytes)
    ensures FirstListed(ls + [l], name) ==
      if FirstListed(ls, name).Some? then FirstListed(ls, name)
      else if l.0 == name then Some(RepositoryPath(l.1)) else None
  {
    var s := ls + [l];
    var k := FirstNaming(s, name);
    match FirstNaming(ls, name)
    case Some(j) =>
      assert s[j] == ls[j];
      assert k.Some?;
    case None =>
      if l.0 == name {
        assert s[|ls|] == l;
        assert k.Some?;
      } else {
        assert forall j :: 0 <= j < |s| ==> s[j].0 != name by {
          forall j | 0 <= j < |s| ensures s[j].0 != name {
            if j < |ls| { assert s[j] == ls[j]; }
          }
        }
      }
  }

  /** No artifact name is listed twice in the directory. */
  ghost predicate UniqueNames(dir: seq<MapEntry>)
  {
    forall i, j :: 0 <= i < j < |dir| ==> dir[i].artifact != dir[j].artifact
  }

  /** Loading a manifest never lists a name twice. */
  lemma {:induction false} LoadKeepsNamesUnique(dir: seq<MapEntry>, ls: seq<Listing>)
    requires UniqueNames(dir)
    ensures UniqueNames(Load(dir, ls))
  {
    if ls != [] {
      LoadKeepsNamesUnique(dir, ls[..|ls| - 1]);
    }
  }

  // ---------------------------------------------------------------------------
  // Files and chunks
  // ---------------------------------------------------------------------------

  /** The contents of `path`; a file that cannot be opened is read as empty. */
  function FileContents(files: map<Bytes, Bytes>, path: Bytes): Bytes
  {
    if path in files then files[path] else []
  }

  /** The file behind descriptor `fd`; anything but an opened file reads nothing. */
  function OpenFile(openFiles: seq<Bytes>, fd: int): Bytes
  {
    if FIRST_FD <= fd < FIRST_FD + |openFiles| then openFiles[fd - FIRST_FD] else []
  }

  /**
   * prepare_request_with_artifact's chunk count: the size is taken as a u32,
   * divided by 58 into the u16 field, and one more is added for a remainder.
   */
  function NrPackets(size: nat): uint16
  {
    var s := size % 0x1_0000_0000;
    (s / REQUEST_PACKET_SIZE + (if s % REQUEST_PACKET_SIZE != 0 then 1 else 0)) % 0x1_0000
  }

  /** For every file of at most 65535 chunks the count is ceil(size / 58). */
  lemma NrPacketsIsCeiling(size: nat)
    requires size <= REQUEST_PACKET_SIZE * 0xFFFF
    ensures size <= NrPackets(size) * REQUEST_PACKET_SIZE < size + REQUEST_PACKET_SIZE
  {
  }

  /** lseek to chunk_id * 58 and read at most 58 bytes. */
  function ChunkData(file: Bytes, chunkId: uint16): (d: Bytes)
    ensures |d| <= REQUEST_PACKET_SIZE
  {
    file[Min(chunkId * REQUEST_PACKET_SIZE, |file|)..Min(chunkId * REQUEST_PACKET_SIZE + REQUEST_PACKET_SIZE, |file|)]
  }

  /** The data of chunks 0 .. n-1, concatenated. */
  function Chunks(file: Bytes, n: nat): Bytes
    requires n <= 0x1_0000
  {
    if n == 0 then [] else Chunks(file, n - 1) + ChunkData(file, n - 1)
  }

  lemma {:induction false} ChunksArePrefix(file: Bytes, n: nat)
    requires n <= 0x1_0000
    ensures Chunks(file, n) == file[..Min(n * REQUEST_PACKET_SIZE, |file|)]
  {
    if n > 0 {
      ChunksArePrefix(file, n - 1);
    }
  }

  /**
   * The chunks a summary announces cover the file exactly: their data,
   * concatenated in order, is the whole file, and none of them is empty.
   */
  lemma ChunksCoverFile(file: Bytes)
    requires |file| <= REQUEST_PACKET_SIZE * 0xFFFF
    ensures Chunks(file, NrPackets(|file|)) == file
    ensures forall k: uint16 :: k < NrPackets(|file|) ==> ChunkData(file, k) != []
  {
    NrPacketsIsCeiling(|file|);
    ChunksArePrefix(file, NrPackets(|file|));
  }

  // ---------------------------------------------------------------------------
  // Per-session state machine
  // ---------------------------------------------------------------------------

  /** The record `create_request` makes for the `k`-th request. */
  function NewRequest(source: Addr, artifact: Bytes, k: nat): Request
  {
    Request(SendingSummary, source, artifact, [], 0, SessionIdAt(k), 0, 0)
  }

  /** A summary is (re)sent only from these states. */
  predicate SummaryDue(r: Request)
  {
    r.currentState == SendingSummary || r.currentState == WaitingForLocation
  }

  /** prepare_request_with_artifact on a record. */
  function Prepared(r: Request, fd: int, size: nat): Request
  {
    r.(fd := fd, currentPacket := 0, nrPackets := NrPackets(size))
  }

  /** The admission guard of server_on_chunk_request for an existing session. */
  predicate ChunkAdmitted(r: Request, chunkId: uint16)
  {
    || (r.currentState == SendingChunks && r.currentPacket <= chunkId)
    || (r.currentState == SendingSummary && r.currentPacket == 0 && chunkId == 0)
  }

  /**
   * One chunk request on a session: the record after it and the data sent,
   * or `None` when the request is refused.
   */
  function ServeChunk(r: Request, file: Bytes, chunkId: uint16): (res: Option<(Request, Bytes)>)
    ensures res.Some? <==> ChunkAdmitted(r, chunkId)
    ensures res.Some? ==> (res.value.0.currentState == SendingChunks
      && r.currentPacket <= res.value.0.currentPacket == chunkId)
  {
    if ChunkAdmitted(r, chunkId) then
      Some((r.(currentPacket := chunkId, currentState := SendingChunks), ChunkData(file, chunkId)))
    else None
  }

  /** A session answering the chunk requests `ids` in turn; `None` once one is refused. */
  function ServeAll(r: Request, file: Bytes, ids: seq<uint16>): Option<(Request, Bytes)>
  {
    if ids == [] then Some((r, []))
    else match ServeAll(r, file, ids[..|ids| - 1])
      case None => None
      case Some((r1, sent)) =>
        match ServeChunk(r1, file, ids[|ids| - 1])
        case None => None
        case Some((r2, d)) => Some((r2, sent + d))
  }

  /** The request ids 0, 1, ..., n-1. */
  function InOrder(n: nat): (ids: seq<uint16>)
    requires n <= 0x1_0000
    ensures |ids| == n && forall k :: 0 <= k < n ==> ids[k] == k
  {
    seq(n, k requires 0 <= k < n => k)
  }

  /**
   * A client that asks for chunks 0, 1, ..., n-1 in order, starting from a
   * session that has just sent its summary, has every request admitted and
   * receives the first n chunks of the file; asking for all announced chunks
   * it receives the whole file.
   */
  lemma {:induction false} InOrderDownload(r: Request, file: Bytes, n: nat)
    requires r.currentState == SendingSummary && r.currentPacket == 0
    requires n <= 0x1_0000
    ensures ServeAll(r, file, InOrder(n)).Some?
    ensures ServeAll(r, file, InOrder(n)).value.1 == Chunks(file, n)
    ensures n > 0 ==> ServeAll(r, file, InOrder(n)).value.0.currentPacket == n - 1
    ensures n > 0 ==> ServeAll(r, file, InOrder(n)).value.0.currentState == SendingChunks
  {
    if n > 0 {
      InOrderDownload(r, file, n - 1);
      assert InOrder(n)[..n - 1] == InOrder(n - 1);
    }
  }

  /** A request behind the session's position, or a repeated chunk 0 after it, is refused. */
  lemma NoRewind(r: Request, file: Bytes, chunkId: uint16)
    requires chunkId < r.currentPacket || (r.currentState != SendingChunks && r.currentState != SendingSummary)
    ensures ServeChunk(r, file, chunkId).None?
  {
  }

  // ---------------------------------------------------------------------------
  // The server's global state and its handlers
  // ---------------------------------------------------------------------------

  /** The globals of the server process as a value. */
  datatype Registry = Registry(
    directory: seq<MapEntry>,
    requests: seq<Request>,
    outbox: seq<Datagram>,
    openFiles: seq<Bytes>,
    halted: bool)

  /** No two records serve the same artifact to the same source. */
  ghost predicate UniqueSessions(reqs: seq<Request>)
  {
    forall i, j :: 0 <= i < j < |reqs| ==>
      !(reqs[i].sourceAddress == reqs[j].sourceAddress && reqs[i].firmwareName == reqs[j].firmwareName)
  }

  /**
   * What the handlers keep true: session ids are handed out in record order,
   * records are unique per (source, artifact), directory names are unique, and
   * while the server runs every record reads from an opened file.
   */
  ghost predicate Consistent(g: Registry)
  {
    && SessionsNumbered(g.requests)
    && UniqueSessions(g.requests)
    && UniqueNames(g.directory)
    && (!g.halted ==> forall i :: 0 <= i < |g.requests| ==> FdOpen(g.requests[i], |g.openFiles|))
  }

  /** Record k holds session id k + 1 (modulo 2^16). */
  ghost predicate SessionsNumbered(reqs: seq<Request>)
  {
    forall i :: 0 <= i < |reqs| ==> reqs[i].sessionId == SessionIdAt(i)
  }

  /** The record reads from one of the `n` files opened so far. */
  predicate FdOpen(r: Request, n: nat)
  {
    FIRST_FD <= r.fd < FIRST_FD + n
  }

  /**
   * The record a GET_ARTIFACT is served from: the existing one for the
   * (source, artifact) pair, or a new one appended with the next session id.
   */
  function Admit(g: Registry, source: Addr, artifact: Bytes): (r: (Registry, nat))
    ensures r.1 < |r.0.requests|
    ensures r.0.requests[r.1].sourceAddress == source && r.0.requests[r.1].firmwareName == artifact
  {
    match FindRequestBySource(g.requests, source, artifact)
    case Some(i) => (g, i)
    case None => (g.(requests := g.requests + [NewRequest(source, artifact, |g.requests|)]), |g.requests|)
  }

  /** The summary step for record `i`: sent when due and the artifact is known; exit when it is not known. */
  function Answer(g: Registry, i: nat, files: map<Bytes, Bytes>, ccitt: Checksum, source: Addr, artifact: Bytes): Registry
    requires i < |g.requests|
  {
    if !SummaryDue(g.requests[i]) then g
    else match FindByArtifact(g.directory, artifact)
      case None => g.(halted := true)
      case Some(e) =>
        var contents := FileContents(files, g.directory[e].filename);
        var r := Prepared(g.requests[i], FIRST_FD + |g.openFiles|, |contents|);
        g.(requests := g.requests[i := r],
           openFiles := g.openFiles + [contents],
           outbox := g.outbox + [Datagram(source, Wire(Summary(r.sessionId, r.nrPackets), ccitt))])
  }

  /** server_on_artifact_request */
  function ArtifactRequest(g: Registry, files: map<Bytes, Bytes>, ccitt: Checksum, source: Addr, artifact: Bytes): Registry
  {
    if g.halted then g
    else
      var (g1, i) := Admit(g, source, artifact);
      Answer(g1, i, files, ccitt, source, artifact)
  }

  /** server_on_chunk_request */
  function ChunkRequest(g: Registry, ccitt: Checksum, sessionId: uint16, chunkId: uint16): Registry
  {
    if g.halted then g
    else match FindRequestBySession(g.requests, sessionId)
      case None => g
      case Some(i) =>
        var r := g.requests[i];
        match ServeChunk(r, OpenFile(g.openFiles, r.fd), chunkId)
        case None => g
        case Some((r', d)) =>
          g.(requests := g.requests[i := r'],
             outbox := g.outbox + [Datagram(r.sourceAddress, Wire(Chunk(chunkId, d), ccitt))])
  }

  /**
   * server_on_repo_addr_request. A name of 60 bytes or more, with its NUL,
   * would be copied past the end of the packet's payload union; the model
   * stops the server there.
   */
  function RepoAddrRequest(g: Registry, ccitt: Checksum, requester: Addr, fwName: Bytes): Registry
  {
    if g.halted then g
    else if !WellFormed(RepoAddr(fwName)) then g.(halted := true)
    else g.(outbox := g.outbox + [Datagram(requester, Wire(RepoAddr(fwName), ccitt))])
  }

  /** What an entry of the server's callback table does. */
  datatype Callback = Serve | LogOnly | Missing

  /** The callback table as written: it has no entry for END_CHUNKS. */
  function ServerCallbacks(tag: uint8): Callback
  {
    if tag == GET_ARTIFACT || tag == GET_CHUNK || tag == GET_REPO_ADDR then Serve
    else if tag == END_CHUNKS then Missing
    else LogOnly
  }

  /** The table with END_CHUNKS handled as the other client-role messages: logged and ignored. */
  function ServerCallbacksFixed(tag: uint8): (c: Callback)
    ensures c != Missing
  {
    if tag == GET_ARTIFACT || tag == GET_CHUNK || tag == GET_REPO_ADDR then Serve else LogOnly
  }

  /** The server's reaction to one callback, with the fixed callback table. */
  function HandleFixed(g: Registry, files: map<Bytes, Bytes>, ccitt: Checksum, e: Event): Registry
  {
    match e
    case OnFirmwareRequest(src, a) => ArtifactRequest(g, files, ccitt, src, a)
    case OnChunkRequest(s, c) => ChunkRequest(g, ccitt, s, c)
    case OnRepoRequest(_, rs, n) => RepoAddrRequest(g, ccitt, rs, n)
    case _ => g
  }

  /**
   * The server's reaction to one callback, with the table as written: the
   * missing END_CHUNKS entry is a call through NULL, which stops the server;
   * every other entry is that of the fixed table.
   */
  function Handle(g: Registry, files: map<Bytes, Bytes>, ccitt: Checksum, e: Event): Registry
  {
    if ServerCallbacks(EventTag(e)) == Missing then g.(halted := true)
    else HandleFixed(g, files, ccitt, e)
  }

  /**
   * An END_CHUNKS packet built by any peer passes process_message and is
   * routed to the server's missing END_CHUNKS entry, which stops the server;
   * with the fixed table it is logged and changes nothing.
   */
  lemma EndChunksHitsMissingCallback(g: Registry, files: map<Bytes, Bytes>, source: Addr, ccitt: Checksum, buf: Bytes)
    requires PACKET_SIZE <= |buf| && buf[..DATA_OFFSET] == Wire(EndChunks, ccitt)
    ensures Process(source, DATA_OFFSET, buf, ccitt) == (NoError, Some(OnEndChunks))
    ensures ServerCallbacks(EventTag(OnEndChunks)) == Missing
    ensures Handle(g, files, ccitt, OnEndChunks).halted
    ensures HandleFixed(g, files, ccitt, OnEndChunks) == g
  {
    WireShape(EndChunks, ccitt);
    RoundTrip(EndChunks, source, ccitt, buf);
  }

  /**
   * Only the three serving entries change anything; the others only log, except
   * that the table as written stops the server on its missing entry.
   */
  lemma HandleFollowsTable(g: Registry, files: map<Bytes, Bytes>, ccitt: Checksum, e: Event)
    ensures ServerCallbacksFixed(EventTag(e)) != Serve ==> HandleFixed(g, files, ccitt, e) == g
    ensures ServerCallbacks(EventTag(e)) == LogOnly ==> Handle(g, files, ccitt, e) == g
  {
  }

  /** Every handler keeps the server consistent, with either table. */
  lemma HandleKeepsConsistent(g: Registry, files: map<Bytes, Bytes>, ccitt: Checksum, e: Event)
    requires Consistent(g)
    ensures Consistent(HandleFixed(g, files, ccitt, e))
    ensures Consistent(Handle(g, files, ccitt, e))
  {
    match e {
      case OnFirmwareRequest(src, a) => ArtifactRequestKeepsConsistent(g, files, ccitt, src, a);
      case OnChunkRequest(s, c) => ChunkRequestKeepsConsistent(g, ccitt, s, c);
      case _ =>
    }
  }

  lemma ArtifactRequestKeepsConsistent(g: Registry, files: map<Bytes, Bytes>, ccitt: Checksum, source: Addr, artifact: Bytes)
    requires Consistent(g)
    ensures Consistent(ArtifactRequest(g, files, ccitt, source, artifact))
  {
    if !g.halted {
      var (g1, i) := Admit(g, source, artifact);
      AdmitKeepsConsistent(g, source, artifact);
      AnswerKeepsConsistent(g1, i, files, ccitt, source, artifact);
    }
  }

  /**
   * Admission keeps the records numbered and unique; only the admitted record
   * may lack an open file, and then it is due a summary.
   */
  lemma AdmitKeepsConsistent(g: Registry, source: Addr, artifact: Bytes)
    requires Consistent(g) && !g.halted
    ensures var (g1, i) := Admit(g, source, artifact);
      && g1.directory == g.directory && g1.openFiles == g.openFiles && !g1.halted
      && SessionsNumbered(g1.requests) && UniqueSessions(g1.requests)
      && (forall j :: 0 <= j < |g1.requests| && j != i ==> FdOpen(g1.requests[j], |g1.openFiles|))
      && (SummaryDue(g1.requests[i]) || FdOpen(g1.requests[i], |g1.openFiles|))
  {
    if FindRequestBySource(g.requests, source, artifact).None? {
      var listed := g.requests + [NewRequest(source, artifact, |g.requests|)];
      forall i, j | 0 <= i < j < |listed|
        ensures !(listed[i].sourceAddress == listed[j].sourceAddress && listed[i].firmwareName == listed[j].firmwareName)
      {
        if j == |g.requests| {
          assert listed[i] == g.requests[i];
        }
      }
    }
  }

  /** The summary step opens the file of the record it prepares, so every record reads from an open file again. */
  lemma AnswerKeepsConsistent(g: Registry, i: nat, files: map<Bytes, Bytes>, ccitt: Checksum, source: Addr, artifact: Bytes)
    requires i < |g.requests| && !g.halted
    requires SessionsNumbered(g.requests) && UniqueSessions(g.requests) && UniqueNames(g.directory)
    requires forall j :: 0 <= j < |g.requests| && j != i ==> FdOpen(g.requests[j], |g.openFiles|)
    requires SummaryDue(g.requests[i]) || FdOpen(g.requests[i], |g.openFiles|)
    ensures Consistent(Answer(g, i, files, ccitt, source, artifact))
  {
  }

  lemma ChunkRequestKeepsConsistent(g: Registry, ccitt: Checksum, sessionId: uint16, chunkId: uint16)
    requires Consistent(g)
    ensures Consistent(ChunkRequest(g, ccitt, sessionId, chunkId))
  {
  }

  /**
   * On GET_ARTIFACT a record is created only when none exists for the
   * (source, artifact) pair, and then it is appended with the next session id.
   */
  lemma ArtifactRequestCreatesOnce(g: Registry, files: map<Bytes, Bytes>, ccitt: Checksum, source: Addr, artifact: Bytes)
    requires !g.halted
    ensures var g' := ArtifactRequest(g, files, ccitt, source, artifact);
      && (FindRequestBySource(g.requests, source, artifact).Some? ==> |g'.requests| == |g.requests|)
      && (FindRequestBySource(g.requests, source, artifact).None? ==>
            |g'.requests| == |g.requests| + 1
            && g'.requests[..|g.requests|] == g.requests
            && g'.requests[|g.requests|].sessionId == SessionIdAt(|g.requests|)
            && g'.requests[|g.requests|].sourceAddress == source
            && g'.requests[|g.requests|].firmwareName == artifact)
  {
  }

  /**
   * As main runs, every datagram carries the same source, its never-assigned
   * `ip`: two clients asking for the same artifact are one client to the
   * server, so the second is served from the first one's record.
   */
  lemma SharedSourceMergesClients(g: Registry, files: map<Bytes, Bytes>, ccitt: Checksum, ip: Addr, artifact: Bytes)
    requires !g.halted && FindRequestBySource(g.requests, ip, artifact).None?
    ensures var g1 := ArtifactRequest(g, files, ccitt, ip, artifact);
      |ArtifactRequest(g1, files, ccitt, ip, artifact).requests| == |g.requests| + 1
  {
    var g1 := ArtifactRequest(g, files, ccitt, ip, artifact);
    ArtifactRequestCreatesOnce(g, files, ccitt, ip, artifact);
    if !g1.halted {
      assert g1.requests[|g.requests|].sourceAddress == ip && g1.requests[|g.requests|].firmwareName == artifact;
      ArtifactRequestCreatesOnce(g1, files, ccitt, ip, artifact);
    }
  }

  /**
   * With each datagram processed as sent from its real sender, two different
   * clients asking for a listed artifact get a record each.
   */
  lemma DistinctSendersGetOwnRecords(g: Registry, files: map<Bytes, Bytes>, ccitt: Checksum, s1: Addr, s2: Addr, artifact: Bytes)
    requires !g.halted && s1 != s2 && FindByArtifact(g.directory, artifact).Some?
    requires FindRequestBySource(g.requests, s1, artifact).None? && FindRequestBySource(g.requests, s2, artifact).None?
    ensures var g1 := ArtifactRequest(g, files, ccitt, s1, artifact);
      |ArtifactRequest(g1, files, ccitt, s2, artifact).requests| == |g.requests| + 2
  {
    var g1 := ArtifactRequest(g, files, ccitt, s1, artifact);
    ArtifactRequestCreatesOnce(g, files, ccitt, s1, artifact);
    assert !g1.halted;
    forall j | 0 <= j < |g1.requests|
      ensures !(g1.requests[j].firmwareName == artifact && g1.requests[j].sourceAddress == s2)
    {
      if j < |g.requests| {
        assert g1.requests[j] == g1.requests[..|g.requests|][j];
      }
    }
    ArtifactRequestCreatesOnce(g1, files, ccitt, s2, artifact);
  }

  /**
   * A summary goes out exactly when the record is due one and the artifact is
   * known; it goes to the requester and announces the record's session and
   * ceil(size / 58) chunks. Otherwise nothing is sent and no record changes
   * state.
   */
  lemma SummaryWhenDue(g: Registry, files: map<Bytes, Bytes>, ccitt: Checksum, source: Addr, artifact: Bytes)
    requires !g.halted && Consistent(g)
    ensures var g' := ArtifactRequest(g, files, ccitt, source, artifact);
      var k := FindRequestBySource(g'.requests, source, artifact);
      && k.Some?
      && (|g'.outbox| == |g.outbox| + 1 <==>
            SummaryDue(g'.requests[k.value]) && FindByArtifact(g.directory, artifact).Some?)
      && (|g'.outbox| == |g.outbox| + 1 ==>
            var r := g'.requests[k.value];
            var contents := FileContents(files, Resolve(g.directory, artifact).value);
            && g'.outbox[..|g.outbox|] == g.outbox
            && r.currentPacket == 0 && r.nrPackets == NrPackets(|contents|)
            && r.fd == FIRST_FD + |g.openFiles| && g'.openFiles == g.openFiles + [contents]
            && g'.outbox[|g.outbox|] == Datagram(source, Wire(Summary(r.sessionId, r.nrPackets), ccitt)))
      && (|g'.outbox| != |g.outbox| + 1 ==> (g'.outbox == g.outbox
            && forall j :: 0 <= j < |g.requests| ==> g'.requests[j] == g.requests[j]))
  {
    var g' := ArtifactRequest(g, files, ccitt, source, artifact);
    var (g1, i) := Admit(g, source, artifact);
    ArtifactRequestKeepsConsistent(g, files, ccitt, source, artifact);
    UniqueLookup(g'.requests, i, source, artifact);
    AnswerSends(g1, i, files, ccitt, source, artifact);
  }

  /** The summary step for record `i` on its own. */
  lemma AnswerSends(g: Registry, i: nat, files: map<Bytes, Bytes>, ccitt: Checksum, source: Addr, artifact: Bytes)
    requires i < |g.requests| && !g.halted
    ensures var g' := Answer(g, i, files, ccitt, source, artifact);
      && |g'.requests| == |g.requests|
      && (|g'.outbox| == |g.outbox| + 1 <==>
            SummaryDue(g'.requests[i]) && FindByArtifact(g.directory, artifact).Some?)
      && (|g'.outbox| == |g.outbox| + 1 ==>
            var r := g'.requests[i];
            var contents := FileContents(files, Resolve(g.directory, artifact).value);
            && g'.outbox[..|g.outbox|] == g.outbox
            && r.currentPacket == 0 && r.nrPackets == NrPackets(|contents|)
            && r.fd == FIRST_FD + |g.openFiles| && g'.openFiles == g.openFiles + [contents]
            && g'.outbox[|g.outbox|] == Datagram(source, Wire(Summary(r.sessionId, r.nrPackets), ccitt)))
      && (|g'.outbox| != |g.outbox| + 1 ==> g'.outbox == g.outbox && g'.requests == g.requests)
  {
  }

  /** In a list with unique (source, artifact) pairs, the lookup finds the one record holding the pair. */
  lemma UniqueLookup(reqs: seq<Request>, i: nat, source: Addr, artifact: Bytes)
    requires UniqueSessions(reqs) && i < |reqs|
    requires reqs[i].sourceAddress == source && reqs[i].firmwareName == artifact
    ensures FindRequestBySource(reqs, source, artifact) == Some(i)
  {
    var k := FindRequestBySource(reqs, source, artifact);
    assert k.Some?;
    assert !(k.value < i);
    assert !(i < k.value);
  }

  /** With fewer than 65536 records, every session id leads back to its own record. */
  lemma SessionLookup(g: Registry, i: nat)
    requires Consistent(g) && |g.requests| <= 0x1_0000 && i < |g.requests|
    ensures FindRequestBySession(g.requests, g.requests[i].sessionId) == Some(i)
  {
    var k := FindRequestBySession(g.requests, g.requests[i].sessionId);
    assert k.Some?;
    if k.value < i {
      SessionIdsDistinct(k.value, i);
    }
    assert !(k.value < i);
  }

  /**
   * A chunk request is answered iff its session exists and the admission
   * guard holds; an answered request moves its record to SENDING_CHUNKS at the
   * requested chunk and sends that chunk's file bytes to the record's source.
   * A refused request changes nothing.
   */
  lemma ChunkRequestIff(g: Registry, ccitt: Checksum, sessionId: uint16, chunkId: uint16)
    requires !g.halted
    ensures var g' := ChunkRequest(g, ccitt, sessionId, chunkId);
      var k := FindRequestBySession(g.requests, sessionId);
      && (g' != g <==> k.Some? && ChunkAdmitted(g.requests[k.value], chunkId))
      && (k.Some? && ChunkAdmitted(g.requests[k.value], chunkId) ==>
            var r := g.requests[k.value];
            && g'.requests == g.requests[k.value := r.(currentPacket := chunkId, currentState := SendingChunks)]
            && g'.outbox == g.outbox + [Datagram(r.sourceAddress,
                 Wire(Chunk(chunkId, ChunkData(OpenFile(g.openFiles, r.fd), chunkId)), ccitt))])
  {
    var g' := ChunkRequest(g, ccitt, sessionId, chunkId);
    var k := FindRequestBySession(g.requests, sessionId);
    if k.Some? && ChunkAdmitted(g.requests[k.value], chunkId) {
      assert |g'.outbox| == |g.outbox| + 1;
    }
  }

  /** A repo-address request is answered with a RESPONSE_REPO_ADDR naming `fwName`, sent to `requester`. */
  lemma RepoAddrReply(g: Registry, ccitt: Checksum, requester: Addr, fwName: Bytes, source: Addr, buf: Bytes)
    requires !g.halted && WellFormed(RepoAddr(fwName))
    requires PACKET_SIZE <= |buf| && |Wire(RepoAddr(fwName), ccitt)| <= |buf|
    requires buf[..|Wire(RepoAddr(fwName), ccitt)|] == Wire(RepoAddr(fwName), ccitt)
    ensures var g' := RepoAddrRequest(g, ccitt, requester, fwName);
      && g'.requests == g.requests && |g'.outbox| == |g.outbox| + 1
      && g'.outbox[|g.outbox|].dest == requester
      && Process(source, |g'.outbox[|g.outbox|].payload|, buf, ccitt) == (NoError, Some(OnRepoAddr(source, fwName)))
  {
    RoundTrip(RepoAddr(fwName), source, ccitt, buf);
  }

  // ---------------------------------------------------------------------------
  // The server process
  // ---------------------------------------------------------------------------

  class Server {
    var directory: seq<MapEntry>
    var requests: seq<Request>
    var outbox: seq<Datagram>
    var openFiles: seq<Bytes>
    var halted: bool
    const files: map<Bytes, Bytes>
    const ccitt: Checksum
    /** main's local `ipv6_addr_t ip`, which is never assigned: the sender's address process_message is given. */
    const ip: Addr
    const alloc: RequestAllocator
    const mesg: array<uint8>

    function State(): Registry
      reads this
    {
      Registry(directory, requests, outbox, openFiles, halted)
    }

    ghost predicate Valid()
      reads this, alloc
    {
      && alloc.Valid()
      && mesg.Length == RECEIVE_BUFFER_SIZE
      && |alloc.issued| == |requests|
      && Consistent(State())
    }

    constructor (files: map<Bytes, Bytes>, ccitt: Checksum, ip: Addr)
      ensures Valid() && fresh(alloc) && fresh(mesg)
      ensures State() == Registry([], [], [], [], false)
      ensures this.files == files && this.ccitt == ccitt && this.ip == ip
    {
      directory, requests, outbox, openFiles, halted := [], [], [], [], false;
      this.files := files;
      this.ccitt := ccitt;
      this.ip := ip;
      alloc := new RequestAllocator();
      mesg := new uint8[RECEIVE_BUFFER_SIZE];
    }

    /**
     * fill_repository over the manifest's lines; `None` is a manifest that
     * cannot be opened, on which the server exits.
     */
    method FillRepository(manifest: Option<seq<Bytes>>)
      requires Valid()
      modifies this
      ensures Valid() && requests == old(requests) && outbox == old(outbox) && openFiles == old(openFiles)
      ensures manifest.None? ==> halted && directory == old(directory)
      ensures manifest.Some? && ParseAll(manifest.value).Some? ==>
        directory == Load(old(directory), ParseAll(manifest.value).value) && halted == old(halted)
      ensures manifest.Some? && ParseAll(manifest.value).None? ==> halted
    {
      if manifest.None? {
        halted := true;
      } else {
        ReadLines(manifest.value);
      }
    }

    /** The getline loop of fill_repository. */
    method ReadLines(lines: seq<Bytes>)
      requires UniqueNames(directory)
      modifies this`directory, this`halted
      ensures UniqueNames(directory)
      ensures ParseAll(lines).Some? ==> directory == Load(old(directory), ParseAll(lines).value) && halted == old(halted)
      ensures ParseAll(lines).None? ==> halted
    {
      ghost var ls: seq<Listing> := [];
      var i := 0;
      while i < |lines|
        invariant 0 <= i <= |lines|
        invariant ParseAll(lines[..i]) == Some(ls) && directory == Load(old(directory), ls)
        invariant UniqueNames(directory) && halted == old(halted)
      {
        ParseAllStep(lines, i, ls);
        var parsed := ParseLine(lines[i]);
        if parsed.None? {
          ParseAllStopsAtCrash(lines, i + 1);
          halted := true;
          return;
        }
        var l := parsed.value;
        AddListing(l);
        LoadSnoc(old(directory), ls, l);
        ls := ls + [l];
        i := i + 1;
      }
      assert lines[..i] == lines;
    }

    /** The body of the manifest loop: a name not yet listed is appended with its path. */
    method AddListing(l: Listing)
      requires UniqueNames(directory)
      modifies this`directory
      ensures directory == LoadLine(old(directory), l) && UniqueNames(directory)
    {
      LoadKeepsNamesUnique(directory, [l]);
      var (name, file) := l;
      if FindByArtifact(directory, name).None? {
        directory := directory + [MapEntry(RepositoryPath(file), name)];
      }
    }

    /** server_on_artifact_request */
    method OnArtifactRequest(source: Addr, artifact: Bytes)
      requires Valid()
      modifies this, alloc
      ensures Valid()
      ensures State() == ArtifactRequest(old(State()), files, ccitt, source, artifact)
    {
      ghost var g := State();
      ArtifactRequestKeepsConsistent(g, files, ccitt, source, artifact);
      if halted {
        return;
      }
      var k := FindRequestBySource(requests, source, artifact);
      var i: nat;
      if k.None? {
        var r := alloc.CreateRequest(source, artifact, SendingSummary);
        requests := requests + [r];
        i := |requests| - 1;
      } else {
        i := k.value;
      }
      assert (State(), i) == Admit(g, source, artifact);
      SendSummaryIfDue(i, source, artifact);
    }

    /** The second half of server_on_artifact_request: the summary for record `i`. */
    method SendSummaryIfDue(i: nat, source: Addr, artifact: Bytes)
      requires i < |requests| && requests[i].firmwareName == artifact
      modifies this`requests, this`openFiles, this`outbox, this`halted
      ensures State() == Answer(old(State()), i, files, ccitt, source, artifact)
    {
      if requests[i].currentState == SendingSummary || requests[i].currentState == WaitingForLocation {
        if FindByArtifact(directory, requests[i].firmwareName).None? {
          halted := true;
          return;
        }
        PrepareRequestWithArtifact(i, artifact);
        var bytes := Encode(Summary(requests[i].sessionId, requests[i].nrPackets), ccitt);
        outbox := outbox + [Datagram(source, bytes)];
      }
    }

    /**
     * prepare_request_with_artifact: open the artifact's file and set up the
     * record's chunk counters from its size.
     */
    method PrepareRequestWithArtifact(i: nat, artifact: Bytes)
      requires i < |requests| && FindByArtifact(directory, artifact).Some?
      modifies this`requests, this`openFiles
      ensures var contents := FileContents(files, directory[FindByArtifact(directory, artifact).value].filename);
        && openFiles == old(openFiles) + [contents]
        && requests == old(requests)[i := Prepared(old(requests)[i], FIRST_FD + |old(openFiles)|, |contents|)]
    {
      var e := FindByArtifact(directory, artifact);
      var contents := FileContents(files, directory[e.value].filename);
      var fd := FIRST_FD + |openFiles|;
      openFiles := openFiles + [contents];
      var n := CountPackets(|contents|);
      requests := requests[i := requests[i].(fd := fd, currentPacket := 0, nrPackets := n)];
    }

    /**
     * The chunk count of prepare_request_with_artifact: the size is read into
     * a u32, divided by 58 into a u16, and one more chunk is added for a
     * remainder.
     */
    static method CountPackets(size: nat) returns (n: uint16)
      ensures size <= REQUEST_PACKET_SIZE * 0xFFFF ==> size <= n * REQUEST_PACKET_SIZE < size + REQUEST_PACKET_SIZE
      ensures n == NrPackets(size)
    {
      var s: uint32 := size % 0x1_0000_0000;
      n := (s / REQUEST_PACKET_SIZE) % 0x1_0000;
      if s % REQUEST_PACKET_SIZE != 0 {
        n := (n + 1) % 0x1_0000;
      }
      if size <= REQUEST_PACKET_SIZE * 0xFFFF {
        NrPacketsIsCeiling(size);
      }
    }

    /** server_on_chunk_request */
    method OnChunkRequest(sessionId: uint16, chunkId: uint16)
      requires Valid()
      modifies this
      ensures Valid()
      ensures State() == ChunkRequest(old(State()), ccitt, sessionId, chunkId)
    {
      ChunkRequestKeepsConsistent(State(), ccitt, sessionId, chunkId);
      if halted {
        return;
      }
      var k := FindRequestBySession(requests, sessionId);
      if k.Some? {
        SendChunk(k.value, chunkId);
      }
    }

    /** The admission check and reply of server_on_chunk_request for record `i`. */
    method SendChunk(i: nat, chunkId: uint16)
      requires i < |requests|
      modifies this`requests, this`outbox
      ensures var r := old(requests)[i];
        match ServeChunk(r, OpenFile(openFiles, r.fd), chunkId)
        case None => requests == old(requests) && outbox == old(outbox)
        case Some((r', d)) =>
          requests == old(requests)[i := r']
          && outbox == old(outbox) + [Datagram(r.sourceAddress, Wire(Chunk(chunkId, d), ccitt))]
    {
      var r := requests[i];
      if (r.currentState == SendingChunks && r.currentPacket <= chunkId)
        || (r.currentState == SendingSummary && r.currentPacket == 0 && chunkId == 0)
      {
        requests := requests[i := r.(currentPacket := chunkId, currentState := SendingChunks)];
        var data := ChunkData(OpenFile(openFiles, r.fd), chunkId);
        var bytes := Encode(Chunk(chunkId, data), ccitt);
        outbox := outbox + [Datagram(r.sourceAddress, bytes)];
      }
    }

    /** server_on_repo_addr_request */
    method OnRepoAddrRequest(requester: Addr, fwName: Bytes)
      requires Valid()
      modifies this
      ensures Valid()
      ensures State() == RepoAddrRequest(old(State()), ccitt, requester, fwName)
    {
      if halted {
        return;
      }
      if !(NoNul(fwName) && |fwName| < UNION_SIZE) {
        halted := true;
        return;
      }
      var bytes := Encode(RepoAddr(fwName), ccitt);
      outbox := outbox + [Datagram(requester, bytes)];
    }

    /**
     * The receive half of one iteration of the main loop: the datagram
     * (truncated to the receive buffer) lands at the start of `mesg`, and
     * process_message checks it as sent from `source` and selects the callback.
     */
    method Deliver(source: Addr, datagram: Bytes) returns (err: ProcessingError, event: Option<Event>)
      requires mesg.Length == RECEIVE_BUFFER_SIZE
      modifies mesg
      ensures var n := Min(|datagram|, RECEIVE_BUFFER_SIZE);
        var received := datagram[..n] + old(mesg[n..]);
        && mesg[..] == ZeroCrc(received)
        && (err, event) == Process(source, n, received, ccitt)
    {
      var n := Min(|datagram|, RECEIVE_BUFFER_SIZE);
      forall j | 0 <= j < n {
        mesg[j] := datagram[j];
      }
      assert mesg[..] == datagram[..n] + old(mesg[n..]);
      err, event := ProcessMessage(source, n, mesg, ccitt);
    }

    /**
     * One iteration of the main loop as written. recvfrom's sender address is
     * only rendered into `address_name`, which is then overwritten; the
     * datagram is processed as sent from the never-assigned `ip`, and the
     * callback table as written runs.
     */
    method Receive(sender: Addr, datagram: Bytes) returns (err: ProcessingError)
      requires Valid()
      modifies this, alloc, mesg
      ensures Valid()
      ensures var n := Min(|datagram|, RECEIVE_BUFFER_SIZE);
        var received := datagram[..n] + old(mesg[n..]);
        && mesg[..] == ZeroCrc(received)
        && err == Process(ip, n, received, ccitt).0
        && State() == match Process(ip, n, received, ccitt).1
             case None => old(State())
             case Some(e) => Handle(old(State()), files, ccitt, e)
    {
      var event;
      err, event := Deliver(ip, datagram);
      if event.Some? {
        Run(event.value);
      }
    }

    /**
     * One iteration of the main loop corrected: the datagram is processed as
     * sent from recvfrom's sender, and the fixed callback table runs.
     */
    method ReceiveFixed(sender: Addr, datagram: Bytes) returns (err: ProcessingError)
      requires Valid()
      modifies this, alloc, mesg
      ensures Valid()
      ensures var n := Min(|datagram|, RECEIVE_BUFFER_SIZE);
        var received := datagram[..n] + old(mesg[n..]);
        && mesg[..] == ZeroCrc(received)
        && err == Process(sender, n, received, ccitt).0
        && State() == match Process(sender, n, received, ccitt).1
             case None => old(State())
             case Some(e) => HandleFixed(old(State()), files, ccitt, e)
    {
      var event;
      err, event := Deliver(sender, datagram);
      if event.Some? {
        RunFixed(event.value);
      }
    }

    /** The callback table as written: the missing END_CHUNKS entry stops the server. */
    method Run(e: Event)
      requires Valid()
      modifies this, alloc
      ensures Valid()
      ensures State() == Handle(old(State()), files, ccitt, e)
    {
      if ServerCallbacks(EventTag(e)) == Missing {
        halted := true;
      } else {
        RunFixed(e);
      }
    }

    /** The fixed callback table: the three serving entries; the others only log. */
    method RunFixed(e: Event)
      requires Valid()
      modifies this, alloc
      ensures Valid()
      ensures State() == HandleFixed(old(State()), files, ccitt, e)
    {
      match e {
        case OnFirmwareRequest(src, a) => OnArtifactRequest(src, a);
        case OnChunkRequest(s, c) => OnChunkRequest(s, c);
        case OnRepoRequest(_, rs, name) => OnRepoAddrRequest(rs, name);
        case _ =>
      }
    }
  }

  lemma LoadSnoc(dir: seq<MapEntry>, ls: seq<Listing>, l: Listing)
    ensures Load(dir, ls + [l]) == LoadLine(Load(dir, ls), l)
  {
    assert (ls + [l])[..|ls|] == ls;
  }

  lemma ParseAllStep(lines: seq<Bytes>, i: nat, ls: seq<Listing>)
    requires i < |lines| && ParseAll(lines[..i]) == Some(ls)
    ensures ParseAll(lines[..i + 1]) ==
      match ParseLine(lines[i])
      case None => None
      case Some(l) => Some(ls + [l])
  {
    assert lines[..i + 1][..i] == lines[..i];
  }

  /** Once a manifest line crashes the loop, parsing any longer prefix crashes too. */
  lemma {:induction false} ParseAllStopsAtCrash(lines: seq<Bytes>, i: nat)
    requires i <= |lines| && ParseAll(lines[..i]).None?
    ensures ParseAll(lines).None?
    decreases |lines| - i
  {
    if i < |lines| {
      assert lines[..i + 1][..i] == lines[..i];
      ParseAllStopsAtCrash(lines, i + 1);
    } else {
      assert lines[..i] == lines;
    }
  }
}
