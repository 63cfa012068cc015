/** Chunked upload and download. zlib and MD5 are parameters. */
module Transfer {
  import opened Bytes

  /** decompress gives None where zlib raises. */
  datatype Codec = Codec(compress: Bytes -> Bytes, decompress: Bytes -> Option<Bytes>, md5: Bytes -> string)

  /** What is used of zlib: it undoes itself and its output is never empty. */
  ghost predicate Lawful(z: Codec) {
    forall b :: z.decompress(z.compress(b)) == Some(b) && z.compress(b) != []
  }

  datatype Upload = Upload(filename: string, totalChunks: int, chunks: map<int, Bytes>, owner: string)

  /** active_transfers and the upload directory. */
  datatype ServerState = ServerState(active: map<string, Upload>, files: map<string, Bytes>)

  datatype Reply =
    | InitOk(tid: string)
    | ChunkOk(idx: int)
    | DoneOk(data: Bytes)
    | UnknownTransfer
    | EmptyPayload
    | CorruptPayload
    | MissingChunk(i: int)
    | Md5Mismatch

  /** A chunk header with its payload message. */
  datatype Chunk = Chunk(tid: string, idx: int, isComp: bool, raw: Bytes)

  // ---- The server's handlers as functions ---------------------------------------------------

  function Decode(z: Codec, isComp: bool, raw: Bytes): Option<Bytes> {
    if isComp then z.decompress(raw) else Some(raw)
  }

  function InitSpec(s: ServerState, filename: string, numChunks: int, owner: string, tid: string): ServerState {
    s.(active := s.active[tid := Upload(filename, numChunks, map[], owner)])
  }

  /** The data a chunk message stores, if it stores any. */
  function Stored(z: Codec, c: Chunk): Option<Bytes> {
    if c.raw == [] then None else Decode(z, c.isComp, c.raw)
  }

  function ChunkSpec(z: Codec, s: ServerState, c: Chunk): (ServerState, Reply) {
    if c.tid !in s.active then (s, UnknownTransfer)
    else if c.raw == [] then (s, EmptyPayload)
    else match Stored(z, c)
      case None => (s, CorruptPayload)
      case Some(data) =>
        var t := s.active[c.tid];
        (s.(active := s.active[c.tid := t.(chunks := t.chunks[c.idx := data])]), ChunkOk(c.idx))
  }

  /** What a chunk message does, in its own fields: only a known transfer with a payload that decodes
      stores anything, under the message's index, and every other answer changes nothing. */
  lemma ChunkInFields(z: Codec, s: ServerState, c: Chunk)
    ensures var (t, reply) := ChunkSpec(z, s, c);
      var stored := c.tid in s.active && c.raw != [] && (c.isComp ==> z.decompress(c.raw).Some?);
      && (c.tid !in s.active <==> reply == UnknownTransfer)
      && (c.tid in s.active && c.raw == [] <==> reply == EmptyPayload)
      && (c.tid in s.active && c.raw != [] && c.isComp && z.decompress(c.raw).None? <==> reply == CorruptPayload)
      && (stored <==> reply == ChunkOk(c.idx))
      && t.files == s.files && t.active.Keys == s.active.Keys
      && (forall id :: id in s.active && (id != c.tid || !stored) ==> t.active[id] == s.active[id])
      && (stored ==>
            var (u, v) := (s.active[c.tid], t.active[c.tid]);
            && v.filename == u.filename && v.totalChunks == u.totalChunks && v.owner == u.owner
            && v.chunks == u.chunks[c.idx := if c.isComp then z.decompress(c.raw).value else c.raw])
  {}

  /** The least index of 0..n-1 without a chunk. */
  function FirstMissing(chunks: map<int, Bytes>, n: int, from: nat): (m: Option<nat>)
    ensures m.None? ==> forall i :: from <= i < n ==> i in chunks
    ensures m.Some? ==> from <= m.value < n && m.value !in chunks && forall i :: from <= i < m.value ==> i in chunks
    decreases n - from
  {
    if n <= from then None
    else if from !in chunks then Some(from)
    else FirstMissing(chunks, n, from + 1)
  }

  function InOrder(chunks: map<int, Bytes>, n: int): (parts: seq<Bytes>)
    requires forall i :: 0 <= i < n ==> i in chunks
    ensures |parts| == if n < 0 then 0 else n
    ensures forall i :: 0 <= i < |parts| ==> parts[i] == chunks[i]
  {
    seq(if n < 0 then 0 else n, i requires 0 <= i < n => chunks[i])
  }

  /** Completion always drops the transfer, whatever the outcome. */
  function DoneSpec(z: Codec, s: ServerState, tid: string, expectedMd5: string): (ServerState, Reply) {
    if tid !in s.active then (s, UnknownTransfer)
    else
      var t, popped := s.active[tid], s.(active := s.active - {tid});
      match FirstMissing(t.chunks, t.totalChunks, 0)
      case Some(i) => (popped, MissingChunk(i))
      case None =>
        var data := Concat(InOrder(t.chunks, t.totalChunks));
        if z.md5(data) != expectedMd5 then (popped, Md5Mismatch)
        else (popped.(files := popped.files[t.filename := data]), DoneOk(data))
  }

  // ---- The connection -----------------------------------------------------------------------

  /** The messages a client sent that the server has not read yet; b'' when there is none. */
  class Connection {
    var incoming: seq<Bytes>

    constructor ()
      ensures incoming == []
    {
      incoming := [];
    }

    method Send(message: Bytes)
      modifies this
      ensures incoming == old(incoming) + [message]
    {
      incoming := incoming + [message];
    }

    method Recv() returns (message: Bytes)
      modifies this
      ensures (message, incoming) == NextMessage(old(incoming))
    {
      if incoming == [] {
        return [];
      }
      message := incoming[0];
      incoming := incoming[1..];
    }
  }

  function NextMessage(incoming: seq<Bytes>): (Bytes, seq<Bytes>) {
    if incoming == [] then ([], []) else (incoming[0], incoming[1..])
  }

  // ---- The server ---------------------------------------------------------------------------

  class Server {
    const z: Codec
    var activeTransfers: map<string, Upload>
    var files: map<string, Bytes>

    constructor (z: Codec)
      ensures this.z == z && State() == ServerState(map[], map[])
    {
      this.z := z;
      activeTransfers := map[];
      files := map[];
    }

    ghost function State(): ServerState
      reads this
    {
      ServerState(activeTransfers, files)
    }

    /** UPLD; `tid` is the random id. */
    method HandleUploadInit(filename: string, numChunks: int, owner: string, tid: string) returns (r: Reply)
      modifies this`activeTransfers
      ensures State() == InitSpec(old(State()), filename, numChunks, owner, tid) && r == InitOk(tid)
      ensures activeTransfers == old(activeTransfers)[tid := Upload(filename, numChunks, map[], owner)]
    {
      activeTransfers := activeTransfers[tid := Upload(filename, numChunks, map[], owner)];
      r := InitOk(tid);
    }

    /** CHNK: the payload is the next message on the connection. For an unknown id it stays there
        unread, where the session loop will take it for a command. */
    method HandleChunk(conn: Connection, tid: string, idx: int, isComp: bool) returns (r: Reply)
      modifies this`activeTransfers, conn
      ensures var (payload, rest) := NextMessage(old(conn.incoming));
        && (State(), r) == ChunkSpec(z, old(State()), Chunk(tid, idx, isComp, payload))
        && conn.incoming == if tid in old(activeTransfers) then rest else old(conn.incoming)
    {
      if tid !in activeTransfers {
        return UnknownTransfer;
      }
      var raw := conn.Recv();
      if raw == [] {
        return EmptyPayload;
      }
      var data := if isComp then z.decompress(raw) else Some(raw);
      if data.None? {
        return CorruptPayload;
      }
      var t := activeTransfers[tid];
      activeTransfers := activeTransfers[tid := t.(chunks := t.chunks[idx := data.value])];
      r := ChunkOk(idx);
    }

    /** DONE */
    method HandleUploadDone(tid: string, expectedMd5: string) returns (r: Reply)
      modifies this`activeTransfers, this`files
      ensures (State(), r) == DoneSpec(z, old(State()), tid, expectedMd5)
    {
      if tid !in activeTransfers {
        return UnknownTransfer;
      }
      var transfer := activeTransfers[tid];
      activeTransfers := activeTransfers - {tid};
      var chunks, numChunks := transfer.chunks, transfer.totalChunks;
      var i := 0;
      while i < numChunks
        invariant 0 <= i
        invariant FirstMissing(chunks, numChunks, 0) == FirstMissing(chunks, numChunks, i)
      {
        if i !in chunks {
          return MissingChunk(i);
        }
        i := i + 1;
      }
      var fileData := JoinChunks(chunks, numChunks);
      if z.md5(fileData) != expectedMd5 {
        return Md5Mismatch;
      }
      files := files[transfer.filename := fileData];
      r := DoneOk(fileData);
    }
  }

  /** b''.join(chunks[i] for i in range(n)) */
  method JoinChunks(chunks: map<int, Bytes>, n: int) returns (data: Bytes)
    requires forall i :: 0 <= i < n ==> i in chunks
    ensures data == Concat(InOrder(chunks, n))
  {
    data := [];
    ghost var parts := InOrder(chunks, n);
    var i := 0;
    while i < n
      invariant 0 <= i <= |parts|
      invariant data == Concat(parts[..i])
    {
      ConcatSnoc(parts[..i], parts[i]);
      assert parts[..i + 1] == parts[..i] + [parts[i]];
      data := data + chunks[i];
      i := i + 1;
    }
    assert parts[..i] == parts;
  }

  // ---- Slicing, as both ends do it ----------------------------------------------------------

  const CHUNK_SIZE: nat := 1024 * 1024

  /** max(1, ceil(size / CHUNK_SIZE)) */
  function NumChunks(size: nat): (n: nat)
    ensures n >= 1 && size <= n * CHUNK_SIZE && (size > 0 ==> (n - 1) * CHUNK_SIZE < size)
  {
    if CeilDiv(size, CHUNK_SIZE) < 1 then 1 else CeilDiv(size, CHUNK_SIZE)
  }

  /** Compress when that saves more than a tenth. */
  predicate WorthIt(z: Codec, chunk: Bytes) {
    10 * |z.compress(chunk)| < 9 * |chunk|
  }

  function Packed(z: Codec, tid: string, data: Bytes, i: nat): Chunk {
    var chunk := Piece(data, CHUNK_SIZE, i);
    if WorthIt(z, chunk) then Chunk(tid, i, true, z.compress(chunk)) else Chunk(tid, i, false, chunk)
  }

  /** The chunk is the client's message for its index. */
  ghost predicate IsPacked(z: Codec, tid: string, data: Bytes, c: Chunk) {
    0 <= c.idx < NumChunks(|data|) && c == Packed(z, tid, data, c.idx)
  }

  /** One turn of the loops below: slice, compress, keep the smaller form if it is worth it. */
  method Pack(z: Codec, tid: string, data: Bytes, i: nat) returns (c: Chunk)
    ensures c == Packed(z, tid, data, i)
  {
    var chunk := PySlice(data, i * CHUNK_SIZE, (i + 1) * CHUNK_SIZE);
    var compressed := z.compress(chunk);
    var useComp := 10 * |compressed| < 9 * |chunk|;
    var payload := if useComp then compressed else chunk;
    c := Chunk(tid, i, useComp, payload);
  }

  /** The chunk loop of `uploadFile` and, with DCNK headers, of `handle_download`. */
  method SliceFile(z: Codec, tid: string, data: Bytes) returns (msgs: seq<Chunk>)
    ensures |msgs| == NumChunks(|data|)
    ensures forall i :: 0 <= i < |msgs| ==> msgs[i] == Packed(z, tid, data, i)
  {
    var numChunks := NumChunks(|data|);
    msgs := [];
    for i := 0 to numChunks
      invariant |msgs| == i
      invariant forall j :: 0 <= j < i ==> msgs[j] == Packed(z, tid, data, j)
    {
      var c := Pack(z, tid, data, i);
      msgs := msgs + [c];
    }
  }

  /** Every packed piece decodes to itself; it is stored unless the piece is empty. */
  lemma PackedDecodes(z: Codec, tid: string, data: Bytes, i: nat)
    requires Lawful(z)
    ensures var c := Packed(z, tid, data, i);
      && Decode(z, c.isComp, c.raw) == Some(Piece(data, CHUNK_SIZE, i))
      && (Piece(data, CHUNK_SIZE, i) != [] ==> Stored(z, c) == Some(Piece(data, CHUNK_SIZE, i)))
      && (Piece(data, CHUNK_SIZE, i) == [] ==> Stored(z, c) == None)
  {}

  /** Message i carries bytes i megabytes up to i + 1 of the file, compressed exactly if that saves more
      than a tenth; there are as many as cover the file, at least one. */
  lemma PackedInFields(z: Codec, tid: string, data: Bytes, i: nat)
    ensures var (c, piece) := (Packed(z, tid, data, i), PySlice(data, i * 1048576, (i + 1) * 1048576));
      && c.tid == tid && c.idx == i
      && (c.isComp <==> 10 * |z.compress(piece)| < 9 * |piece|)
      && c.raw == if c.isComp then z.compress(piece) else piece
    ensures var n := NumChunks(|data|);
      n >= 1 && |data| <= n * 1048576 && (n > 1 ==> (n - 1) * 1048576 < |data|)
  {}

  /** Only the single piece of an empty file is empty. */
  lemma PieceNonEmpty(data: Bytes, i: nat)
    requires data != [] && i < NumChunks(|data|)
    ensures Piece(data, CHUNK_SIZE, i) != []
  {
    var n := NumChunks(|data|);
    assert i * CHUNK_SIZE <= (n - 1) * CHUNK_SIZE;
  }

  // ---- Interleaved uploads ------------------------------------------------------------------

  datatype Event =
    | Init(filename: string, numChunks: int, owner: string, tid: string)
    | Arrive(chunk: Chunk)
    | Done(tid: string, md5: string)

  function Apply(z: Codec, s: ServerState, e: Event): ServerState {
    match e
    case Init(filename, n, owner, tid) => InitSpec(s, filename, n, owner, tid)
    case Arrive(c) => ChunkSpec(z, s, c).0
    case Done(tid, md5) => DoneSpec(z, s, tid, md5).0
  }

  function Run(z: Codec, s: ServerState, events: seq<Event>): ServerState {
    if events == [] then s else Apply(z, Run(z, s, events[..|events| - 1]), events[|events| - 1])
  }

  /** Ids are distinct: nobody else starts or completes this transfer. */
  ghost predicate OnlyChunksOf(events: seq<Event>, tid: string) {
    forall i :: 0 <= i < |events| ==>
      (events[i].Init? ==> events[i].tid != tid) && (events[i].Done? ==> events[i].tid != tid)
  }

  /** The newest data stored for one index of one transfer. */
  function LastWrite(z: Codec, events: seq<Event>, tid: string, idx: int): Option<Bytes> {
    if events == [] then None
    else
      var e := events[|events| - 1];
      if e.Arrive? && e.chunk.tid == tid && e.chunk.idx == idx && Stored(z, e.chunk).Some?
      then Stored(z, e.chunk)
      else LastWrite(z, events[..|events| - 1], tid, idx)
  }

  /** Main result: whatever else happens in between, a transfer holds exactly the last write of
      each of its own indices. */
  lemma {:induction false} HoldsLastWrites(z: Codec, s: ServerState, tid: string, events: seq<Event>)
    requires tid in s.active && s.active[tid].chunks == map[]
    requires OnlyChunksOf(events, tid)
    ensures var t := Run(z, s, events);
      && tid in t.active
      && t.active[tid].filename == s.active[tid].filename
      && t.active[tid].totalChunks == s.active[tid].totalChunks
      && forall idx :: LastWrite(z, events, tid, idx)
           == if idx in t.active[tid].chunks then Some(t.active[tid].chunks[idx]) else None
  {
    if events != [] {
      var init := events[..|events| - 1];
      assert forall i :: 0 <= i < |init| ==> init[i] == events[i];
      HoldsLastWrites(z, s, tid, init);
    }
  }

  /** All indices 0..n-1 of the transfer arrived. */
  ghost predicate AllArrived(z: Codec, events: seq<Event>, tid: string, n: int) {
    forall i :: 0 <= i < n ==> LastWrite(z, events, tid, i).Some?
  }

  /** The file the transfer's own messages fix: the last write of each index, in index order. */
  ghost function Assembled(z: Codec, events: seq<Event>, tid: string, n: int): Bytes
    requires AllArrived(z, events, tid, n)
  {
    Concat(seq(if n < 0 then 0 else n, i requires 0 <= i < n => LastWrite(z, events, tid, i).value))
  }

  /** Main result: completing the transfer succeeds only if all indices 0..n-1 arrived, and then
      yields the join of their last writes, whatever was interleaved, reordered or repeated; the
      first index that did not arrive is reported otherwise. */
  lemma DoneReassembles(z: Codec, s: ServerState, filename: string, n: int, owner: string, tid: string,
                        events: seq<Event>, md5: string)
    requires OnlyChunksOf(events, tid)
    ensures var before := Run(z, InitSpec(s, filename, n, owner, tid), events);
      var (after, reply) := DoneSpec(z, before, tid, md5);
      && tid !in after.active
      && (AllArrived(z, events, tid, n) ==>
            var data := Assembled(z, events, tid, n);
            if z.md5(data) == md5 then reply == DoneOk(data) && after.files == before.files[filename := data]
            else reply == Md5Mismatch && after.files == before.files)
      && (!AllArrived(z, events, tid, n) ==>
            && reply.MissingChunk? && 0 <= reply.i < n && after.files == before.files
            && LastWrite(z, events, tid, reply.i).None?
            && forall k :: 0 <= k < reply.i ==> LastWrite(z, events, tid, k).Some?)
  {
    var started := InitSpec(s, filename, n, owner, tid);
    HoldsLastWrites(z, started, tid, events);
    var u := Run(z, started, events).active[tid];
    assert AllArrived(z, events, tid, n) <==> FirstMissing(u.chunks, n, 0).None?;
    if AllArrived(z, events, tid, n) {
      assert InOrder(u.chunks, n)
          == seq(if n < 0 then 0 else n, i requires 0 <= i < n => LastWrite(z, events, tid, i).value);
    }
  }

  /** The transfer's chunk messages are the client's, each index at least once. */
  ghost predicate Carries(z: Codec, events: seq<Event>, tid: string, data: Bytes) {
    && (forall i :: 0 <= i < |events| && events[i].Arrive? && events[i].chunk.tid == tid ==>
          IsPacked(z, tid, data, events[i].chunk))
    && forall k :: 0 <= k < NumChunks(|data|) ==> Arrive(Packed(z, tid, data, k)) in events
  }

  lemma {:induction false} LastWriteIsPiece(z: Codec, events: seq<Event>, tid: string, data: Bytes, k: nat)
    requires Lawful(z) && k < NumChunks(|data|) && Piece(data, CHUNK_SIZE, k) != []
    requires forall i :: 0 <= i < |events| && events[i].Arrive? && events[i].chunk.tid == tid ==>
               IsPacked(z, tid, data, events[i].chunk)
    requires Arrive(Packed(z, tid, data, k)) in events
    ensures LastWrite(z, events, tid, k) == Some(Piece(data, CHUNK_SIZE, k))
  {
    var init, e := events[..|events| - 1], events[|events| - 1];
    PackedDecodes(z, tid, data, k);
    if e.Arrive? && e.chunk.tid == tid && e.chunk.idx == k {
    } else {
      assert e != Arrive(Packed(z, tid, data, k));
      assert events == init + [e];
      LastWriteIsPiece(z, init, tid, data, k);
    }
  }

  lemma {:induction false} EmptyNeverStored(z: Codec, events: seq<Event>, tid: string)
    requires Lawful(z)
    requires forall i :: 0 <= i < |events| && events[i].Arrive? && events[i].chunk.tid == tid ==>
               IsPacked(z, tid, [], events[i].chunk)
    ensures LastWrite(z, events, tid, 0) == None
  {
    if events != [] {
      PackedDecodes(z, tid, [], 0);
      var init := events[..|events| - 1];
      assert forall i :: 0 <= i < |init| ==> init[i] == events[i];
      EmptyNeverStored(z, init, tid);
    }
  }

  /** Main result: however the client's chunks are interleaved, reordered and repeated, the upload
      stores the original file, exactly when the file is not empty. */
  lemma UploadRoundTrip(z: Codec, s: ServerState, filename: string, owner: string, tid: string,
        data: Bytes, events: seq<Event>)
    requires Lawful(z) && OnlyChunksOf(events, tid) && Carries(z, events, tid, data)
    ensures var started := InitSpec(s, filename, NumChunks(|data|), owner, tid);
      var (t, reply) := DoneSpec(z, Run(z, started, events), tid, z.md5(data));
      && (reply == DoneOk(data) <==> data != [])
      && (data != [] ==> t.files == Run(z, started, events).files[filename := data])
      && (data == [] ==> reply == MissingChunk(0) && t.files == Run(z, started, events).files)
  {
    if data == [] {
      EmptyUploadFails(z, s, filename, owner, tid, events);
    } else {
      AssemblesOriginal(z, events, tid, data);
      DoneReassembles(z, s, filename, NumChunks(|data|), owner, tid, events, z.md5(data));
    }
  }

  lemma EmptyUploadFails(z: Codec, s: ServerState, filename: string, owner: string, tid: string, events: seq<Event>)
    requires Lawful(z) && OnlyChunksOf(events, tid) && Carries(z, events, tid, [])
    ensures var before := Run(z, InitSpec(s, filename, NumChunks(0), owner, tid), events);
      var (after, reply) := DoneSpec(z, before, tid, z.md5([]));
      reply == MissingChunk(0) && after.files == before.files
  {
    assert NumChunks(0) == 1;
    EmptyNeverStored(z, events, tid);
    DoneReassembles(z, s, filename, 1, owner, tid, events, z.md5([]));
  }

  lemma AssemblesOriginal(z: Codec, events: seq<Event>, tid: string, data: Bytes)
    requires Lawful(z) && Carries(z, events, tid, data) && data != []
    ensures AllArrived(z, events, tid, NumChunks(|data|))
    ensures Assembled(z, events, tid, NumChunks(|data|)) == data
  {
    var n := NumChunks(|data|);
    forall k | 0 <= k < n ensures LastWrite(z, events, tid, k) == Some(Piece(data, CHUNK_SIZE, k)) {
      PieceNonEmpty(data, k);
      LastWriteIsPiece(z, events, tid, data, k);
    }
    PiecesCover(data, CHUNK_SIZE, n);
    assert seq(n, i requires 0 <= i < n => LastWrite(z, events, tid, i).value) == Pieces(data, CHUNK_SIZE, n);
  }

  /** What an undisturbed client sends between UPLD and DONE. */
  ghost function ClientEvents(z: Codec, tid: string, data: Bytes, n: nat): (events: seq<Event>)
    ensures |events| == n && forall i :: 0 <= i < n ==> events[i] == Arrive(Packed(z, tid, data, i))
  {
    seq(n, i requires 0 <= i < n => Arrive(Packed(z, tid, data, i)))
  }

  lemma ClientCarries(z: Codec, tid: string, data: Bytes)
    ensures Carries(z, ClientEvents(z, tid, data, NumChunks(|data|)), tid, data)
    ensures OnlyChunksOf(ClientEvents(z, tid, data, NumChunks(|data|)), tid)
  {
    var events := ClientEvents(z, tid, data, NumChunks(|data|));
    forall k | 0 <= k < NumChunks(|data|) ensures Arrive(Packed(z, tid, data, k)) in events {
      assert events[k] in events;
    }
  }

  lemma RunClientEvents(z: Codec, s: ServerState, tid: string, data: Bytes, i: nat)
    ensures Run(z, s, ClientEvents(z, tid, data, i + 1))
         == ChunkSpec(z, Run(z, s, ClientEvents(z, tid, data, i)), Packed(z, tid, data, i)).0
  {
    var events := ClientEvents(z, tid, data, i + 1);
    assert events[..i] == ClientEvents(z, tid, data, i);
  }

  /** Sending chunks stores no file. */
  lemma {:induction false} ClientEventsKeepFiles(z: Codec, s: ServerState, tid: string, data: Bytes, n: nat)
    ensures Run(z, s, ClientEvents(z, tid, data, n)).files == s.files
  {
    if n > 0 {
      ClientEventsKeepFiles(z, s, tid, data, n - 1);
      RunClientEvents(z, s, tid, data, n - 1);
    }
  }

  /** An undisturbed upload, from UPLD to DONE. */
  ghost function Exchange(z: Codec, s: ServerState, filename: string, owner: string, tid: string,
        data: Bytes): (ServerState, Reply)
  {
    var n := NumChunks(|data|);
    DoneSpec(z, Run(z, InitSpec(s, filename, n, owner, tid), ClientEvents(z, tid, data, n)), tid, z.md5(data))
  }

  /** It stores the file and succeeds exactly when the file is not empty. */
  lemma ExchangeStores(z: Codec, s: ServerState, filename: string, owner: string, tid: string, data: Bytes)
    requires Lawful(z)
    ensures var (t, reply) := Exchange(z, s, filename, owner, tid, data);
      && tid !in t.active
      && reply == (if data != [] then DoneOk(data) else MissingChunk(0))
      && t.files == if data != [] then s.files[filename := data] else s.files
  {
    var n := NumChunks(|data|);
    ClientCarries(z, tid, data);
    ClientEventsKeepFiles(z, InitSpec(s, filename, n, owner, tid), tid, data, n);
    UploadRoundTrip(z, s, filename, owner, tid, data, ClientEvents(z, tid, data, n));
  }

  /** The chunk loop of `uploadFile`, the server reading and answering each message. */
  method SendChunks(server: Server, conn: Connection, tid: string, data: Bytes, numChunks: nat)
    requires tid in server.activeTransfers && conn.incoming == []
    modifies server`activeTransfers, conn
    ensures server.State() == Run(server.z, old(server.State()), ClientEvents(server.z, tid, data, numChunks))
    ensures conn.incoming == []
  {
    ghost var start := server.State();
    for i := 0 to numChunks
      invariant server.State() == Run(server.z, start, ClientEvents(server.z, tid, data, i))
      invariant tid in server.activeTransfers && conn.incoming == []
    {
      RunClientEvents(server.z, start, tid, data, i);
      var c := Pack(server.z, tid, data, i);
      conn.Send(c.raw);
      var ack := server.HandleChunk(conn, c.tid, c.idx, c.isComp);
    }
  }

  /** `uploadFile` against the server's handlers: UPLD, the chunk loop, DONE. What comes out is
      settled by `ExchangeStores`; nothing is left unread. */
  method UploadFile(server: Server, conn: Connection, filename: string, owner: string, tid: string, data: Bytes)
      returns (r: Reply)
    requires conn.incoming == []
    modifies server, conn
    ensures (server.State(), r) == Exchange(server.z, old(server.State()), filename, owner, tid, data)
    ensures conn.incoming == []
  {
    var numChunks := NumChunks(|data|);
    var md5 := server.z.md5(data);
    var ready := server.HandleUploadInit(filename, numChunks, owner, tid);
    SendChunks(server, conn, tid, data, numChunks);
    r := server.HandleUploadDone(tid, md5);
  }

  // ---- Download -----------------------------------------------------------------------------

  /** The dictionary the client fills, later messages overwriting earlier ones; None where zlib raises. */
  function Collect(z: Codec, msgs: seq<Chunk>): Option<map<int, Bytes>> {
    if msgs == [] then Some(map[])
    else
      var last := msgs[|msgs| - 1];
      match (Collect(z, msgs[..|msgs| - 1]), Decode(z, last.isComp, last.raw))
      case (Some(chunks), Some(data)) => Some(chunks[last.idx := data])
      case _ => None
  }

  /** The file `downloadFile` ends with: None when messages run out, decoding raises, an index is
      missing or the MD5 differs. */
  function DownloadSpec(z: Codec, msgs: seq<Chunk>, numChunks: nat, md5: string): Option<Bytes> {
    if |msgs| < numChunks then None
    else match Collect(z, msgs[..numChunks])
      case None => None
      case Some(chunks) =>
        if FirstMissing(chunks, numChunks, 0).Some? then None
        else
          var data := Concat(InOrder(chunks, numChunks));
          if z.md5(data) != md5 then None else Some(data)
  }

  method DownloadFile(z: Codec, msgs: seq<Chunk>, numChunks: nat, serverMd5: string) returns (r: Option<Bytes>)
    ensures r == DownloadSpec(z, msgs, numChunks, serverMd5)
  {
    if |msgs| < numChunks {
      return None;
    }
    var chunks: map<int, Bytes> := map[];
    for i := 0 to numChunks
      invariant Collect(z, msgs[..i]) == Some(chunks)
      invariant forall j :: 0 <= j < i ==> Decode(z, msgs[j].isComp, msgs[j].raw).Some?
    {
      assert msgs[..i + 1][..i] == msgs[..i];
      var chunkData := if msgs[i].isComp then z.decompress(msgs[i].raw) else Some(msgs[i].raw);
      if chunkData.None? {
        CollectStops(z, msgs[..numChunks], i);
        return None;
      }
      chunks := chunks[msgs[i].idx := chunkData.value];
    }
    if exists i :: 0 <= i < numChunks && i !in chunks {
      return None;
    }
    var fileData := JoinChunks(chunks, numChunks);
    if z.md5(fileData) != serverMd5 {
      return None;
    }
    return Some(fileData);
  }

  lemma {:induction false} CollectStops(z: Codec, msgs: seq<Chunk>, i: nat)
    requires i < |msgs| && Decode(z, msgs[i].isComp, msgs[i].raw).None?
    ensures Collect(z, msgs) == None
  {
    if i < |msgs| - 1 {
      CollectStops(z, msgs[..|msgs| - 1], i);
    }
  }

  /** What a download message carries; None where zlib raises. */
  function Payload(z: Codec, m: Chunk): Option<Bytes> {
    if !m.isComp then Some(m.raw) else z.decompress(m.raw)
  }

  /** `data` is the payload of the last message with index i. */
  ghost predicate LastPayload(z: Codec, msgs: seq<Chunk>, i: int, data: Bytes) {
    exists j :: 0 <= j < |msgs| && msgs[j].idx == i && Payload(z, msgs[j]) == Some(data)
      && forall k :: j < k < |msgs| ==> msgs[k].idx != i
  }

  lemma {:induction false} CollectIsLast(z: Codec, msgs: seq<Chunk>)
    ensures Collect(z, msgs).Some? <==> forall j :: 0 <= j < |msgs| ==> Payload(z, msgs[j]).Some?
    ensures Collect(z, msgs).Some? ==> forall i, data: Bytes ::
      LastPayload(z, msgs, i, data) <==> i in Collect(z, msgs).value && Collect(z, msgs).value[i] == data
  {
    if msgs != [] {
      var init, last := msgs[..|msgs| - 1], msgs[|msgs| - 1];
      CollectIsLast(z, init);
      if Collect(z, msgs).Some? {
        forall i, data: Bytes
          ensures LastPayload(z, msgs, i, data) <==> i in Collect(z, msgs).value && Collect(z, msgs).value[i] == data
        {
          LastPayloadSnoc(z, init, last, i, data);
          assert msgs == init + [last];
        }
      }
    }
  }

  lemma LastPayloadSnoc(z: Codec, init: seq<Chunk>, last: Chunk, i: int, data: Bytes)
    ensures LastPayload(z, init + [last], i, data) <==>
      if last.idx == i then Payload(z, last) == Some(data) else LastPayload(z, init, i, data)
  {
    var msgs := init + [last];
    if last.idx == i {
      assert msgs[|init|].idx == i;
    } else {
      if LastPayload(z, msgs, i, data) {
        var j :| 0 <= j < |msgs| && msgs[j].idx == i && Payload(z, msgs[j]) == Some(data)
          && forall k :: j < k < |msgs| ==> msgs[k].idx != i;
        assert init[j].idx == i && forall k :: j < k < |init| ==> init[k] == msgs[k];
      }
      if LastPayload(z, init, i, data) {
        var j :| 0 <= j < |init| && init[j].idx == i && Payload(z, init[j]) == Some(data)
          && forall k :: j < k < |init| ==> init[k].idx != i;
        assert msgs[j].idx == i && Payload(z, msgs[j]) == Some(data);
      }
    }
  }

  /** The parts a download joins: the last payload of each index. */
  ghost predicate ArePartsOf(z: Codec, msgs: seq<Chunk>, parts: seq<Bytes>) {
    forall i :: 0 <= i < |parts| ==> LastPayload(z, msgs, i, parts[i])
  }

  /** Main result: whatever arrives, the download ends with `data` exactly when the announced number of
      messages came, each could be decoded, every index 0..n-1 is among them, `data` joins their last
      payloads, and its digest is the announced one. */
  lemma DownloadExactly(z: Codec, msgs: seq<Chunk>, n: nat, md5: string, data: Bytes)
    ensures DownloadSpec(z, msgs, n, md5) == Some(data) <==>
      && n <= |msgs| && z.md5(data) == md5
      && (forall j :: 0 <= j < n ==> Payload(z, msgs[j]).Some?)
      && exists parts :: |parts| == n && ArePartsOf(z, msgs[..n], parts) && data == Concat(parts)
  {
    if n <= |msgs| {
      var came := msgs[..n];
      CollectIsLast(z, came);
      assert (forall j :: 0 <= j < n ==> Payload(z, msgs[j]).Some?) <==> Collect(z, came).Some?;
      if Collect(z, came).Some? {
        DownloadParts(z, came, Collect(z, came).value, n, data);
      }
    }
  }

  lemma DownloadParts(z: Codec, came: seq<Chunk>, chunks: map<int, Bytes>, n: nat, data: Bytes)
    requires forall i, d: Bytes :: LastPayload(z, came, i, d) <==> i in chunks && chunks[i] == d
    ensures (exists parts :: |parts| == n && ArePartsOf(z, came, parts) && data == Concat(parts)) <==>
      FirstMissing(chunks, n, 0).None? && data == Concat(InOrder(chunks, n))
  {
    if FirstMissing(chunks, n, 0).None? {
      assert ArePartsOf(z, came, InOrder(chunks, n));
      forall parts | |parts| == n && ArePartsOf(z, came, parts) ensures parts == InOrder(chunks, n) {
        forall i | 0 <= i < n ensures parts[i] == InOrder(chunks, n)[i] {
          assert LastPayload(z, came, i, parts[i]);
        }
      }
    } else {
      var i := FirstMissing(chunks, n, 0).value;
      forall parts | |parts| == n ensures !ArePartsOf(z, came, parts) {
        assert !LastPayload(z, came, i, parts[i]);
      }
    }
  }

  lemma {:induction false} CollectsPieces(z: Codec, msgs: seq<Chunk>, tid: string, data: Bytes)
    requires Lawful(z)
    requires forall i :: 0 <= i < |msgs| ==> IsPacked(z, tid, data, msgs[i])
    ensures Collect(z, msgs).Some?
    ensures forall k :: 0 <= k < NumChunks(|data|) && Packed(z, tid, data, k) in msgs ==>
      k in Collect(z, msgs).value && Collect(z, msgs).value[k] == Piece(data, CHUNK_SIZE, k)
  {
    if msgs != [] {
      var init, last := msgs[..|msgs| - 1], msgs[|msgs| - 1];
      CollectsPieces(z, init, tid, data);
      var j := last.idx;
      PackedDecodes(z, tid, data, j);
      assert msgs == init + [last];
      forall k | 0 <= k < NumChunks(|data|) && Packed(z, tid, data, k) in msgs
        ensures k in Collect(z, msgs).value && Collect(z, msgs).value[k] == Piece(data, CHUNK_SIZE, k)
      {
        if k != j {
          assert Packed(z, tid, data, k) in init;
        }
      }
    }
  }

  /** Main result: in whatever order the server's chunks come, the download is the file, the empty
      file included. */
  lemma DownloadRoundTrip(z: Codec, msgs: seq<Chunk>, tid: string, data: Bytes)
    requires Lawful(z) && |msgs| == NumChunks(|data|)
    requires forall i :: 0 <= i < |msgs| ==> IsPacked(z, tid, data, msgs[i])
    requires forall k :: 0 <= k < NumChunks(|data|) ==> Packed(z, tid, data, k) in msgs
    ensures DownloadSpec(z, msgs, NumChunks(|data|), z.md5(data)) == Some(data)
  {
    var n := NumChunks(|data|);
    assert msgs[..n] == msgs;
    CollectsPieces(z, msgs, tid, data);
    var chunks := Collect(z, msgs).value;
    assert FirstMissing(chunks, n, 0).None?;
    assert InOrder(chunks, n) == Pieces(data, CHUNK_SIZE, n);
    PiecesCover(data, CHUNK_SIZE, n);
  }
}
