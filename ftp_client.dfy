/**
 * The FTP client of ftp_client.c as an object: its static state (the open
 * data file and chunk map, the connection, the transfer geometry, the
 * checksum, the last status reply) becomes the fields of Client, and the
 * local file system a map from path to contents.
 *
 * The link to the server is given to each operation as the reply it will
 * get (or none); every request the client hands to the connection is
 * appended to `sent`.
 */
module FtpClient {
  import opened Common
  import opened FtpGeometry
  import opened FtpStatus
  import opened FtpCrc
  import opened FtpTransfer

  /** ftp_return_t, in the order ftp_perror lists it. */
  datatype Ret = Ok | Proto | NoEnt | Inval | NoSpc | Io | FBig | Exists | NotSup | Busy

  /** Opening a connection and exchanging a request for a reply. */
  datatype Link<R> =
    | NoConnection   // csp_connect returned NULL
    | NoReply        // the transaction timed out or the reply had the wrong length
    | Reply(reply: R)

  datatype UploadReply = UploadReply(isUploadReply: bool, ret: Ret)
  datatype DownloadReply = DownloadReply(isDownloadReply: bool, ret: Ret, size: u32, crc: bv32)
  datatype StatusAnswer = StatusAnswer(isStatusReply: bool, ret: Ret, complete: u32, total: u32, entries: seq<Entry>)
  datatype CrcReply = CrcReply(isCrcReply: bool, ret: Ret, crc: bv32)

  /** Requests and reports the client sends. */
  datatype Message =
    | UploadRequest(chunkSize: u16, size: u32, crc: bv32, memAddr: u32, backend: byte, path: string)
    | DownloadRequest(chunkSize: u16, memAddr: u32, memSize: u32, backend: byte, path: string)
    | StatusRequest
    | StatusReport(complete: nat, total: u32, entries: seq<Entry>)
    | Data(index: Word, payload: seq<byte>)
    | CrcRequest
    | DoneRequest

  /** ftp_download's outcome: 0, -1, FTP_RET_EXISTS or FTP_RET_IO. */
  datatype DownloadStatus = Started | Failed | AlreadyExists | IoError

  /** sprintf(map, "%s.map", path): the chunk map ftp_download opens or creates. */
  function MapName(path: string): (r: string)
    ensures |r| == |path| + 4
  {
    path + ".map"
  }

  /**
   * snprintf(map, FTP_PATH_LENGTH, "%s.map", ftp_file_name): the map
   * ftp_done removes, cut to FTP_PATH_LENGTH - 1 characters.
   */
  function DoneMapName(fileName: string, pathLength: nat): (r: string)
    requires pathLength > 0
    ensures |r| < pathLength
  {
    Prefix(fileName + ".map", pathLength - 1)
  }

  /**
   * After ftp_download stored the local path in ftp_file_name (cut to
   * FTP_PATH_LENGTH - 1), ftp_done removes the map it created exactly when
   * the path is at most FTP_PATH_LENGTH - 5 characters long.
   */
  lemma DoneRemovesCreatedMapIff(path: string, pathLength: nat)
    requires pathLength > 0
    ensures DoneMapName(Prefix(path, pathLength - 1), pathLength) == MapName(path)
            <==> |path| + 5 <= pathLength
  {
    if |path| + 5 <= pathLength {
      assert Prefix(path, pathLength - 1) == path;
    }
  }

  /** One FTP_DATA packet: chunk number little-endian, then ftp_chunk_size file bytes. */
  function ChunkMessage(file: seq<byte>, cs: int, chunk: u32): (msg: Message)
    requires ValidChunkSize(cs)
    ensures msg.Data? && LeDecode(msg.index) == chunk && |msg.payload| == cs
  {
    Data(Le32(chunk), ReadAt(file, (chunk * cs) % U32, cs))
  }

  /**
   * How many packets ftp_data sends for entry i, starting at attempt j:
   * it stops after the first send that fails.
   */
  function Attempts(i: nat, e: Entry, lost: set<(nat, nat)>, j: nat): (n: nat)
    ensures j <= e.count ==> j <= n <= e.count
    ensures j < e.count ==> j < n
    ensures j > e.count ==> n == e.count
    decreases e.count - j
  {
    if j >= e.count then e.count
    else if (i, j) in lost then j + 1
    else Attempts(i, e, lost, j + 1)
  }

  /** The packets ftp_data sends for entry i: chunks next, next + 1, ... */
  function EntryMessages(file: seq<byte>, cs: int, i: nat, e: Entry, lost: set<(nat, nat)>): (msgs: seq<Message>)
    requires ValidChunkSize(cs)
    ensures |msgs| <= e.count
    ensures e.count > 0 ==> |msgs| > 0
  {
    ChunkRun(file, cs, e.next, Attempts(i, e, lost, 0))
  }

  /** Data packets for the n chunks from next on, numbers taken modulo 2^32. */
  function ChunkRun(file: seq<byte>, cs: int, next: nat, n: nat): (msgs: seq<Message>)
    requires ValidChunkSize(cs)
    ensures |msgs| == n
    ensures forall j :: 0 <= j < n ==> msgs[j] == ChunkMessage(file, cs, (next + j) % U32)
  {
    if n == 0 then [] else ChunkRun(file, cs, next, n - 1) + [ChunkMessage(file, cs, (next + n - 1) % U32)]
  }

  /** The packets ftp_data sends for the first k entries of the last status. */
  function DataPlan(file: seq<byte>, cs: int, entries: seq<Entry>, lost: set<(nat, nat)>, k: nat): seq<Message>
    requires ValidChunkSize(cs) && k <= |entries|
  {
    if k == 0 then []
    else DataPlan(file, cs, entries, lost, k - 1) + EntryMessages(file, cs, k - 1, entries[k - 1], lost)
  }

  /**
   * When every send succeeds, entry i produces exactly count packets, the
   * j-th carrying chunk next + j and that chunk's bytes of the file.
   */
  lemma {:induction false} AllDeliveredSendsEveryChunk(file: seq<byte>, cs: int, i: nat, e: Entry,
                                                       lost: set<(nat, nat)>)
    requires ValidChunkSize(cs)
    requires forall j :: 0 <= j < e.count ==> (i, j) !in lost
    ensures |EntryMessages(file, cs, i, e, lost)| == e.count
    ensures forall j :: 0 <= j < e.count ==>
              var msg := EntryMessages(file, cs, i, e, lost)[j];
              msg.Data? && LeDecode(msg.index) == (e.next + j) % U32 &&
              msg.payload == ReadAt(file, ((e.next + j) % U32 * cs) % U32, cs)
  {
    AttemptsAllDelivered(i, e, lost, 0);
    var msgs := EntryMessages(file, cs, i, e, lost);
    forall j | 0 <= j < e.count
      ensures msgs[j] == ChunkMessage(file, cs, (e.next + j) % U32)
    {
    }
  }

  lemma {:induction false} AttemptsAllDelivered(i: nat, e: Entry, lost: set<(nat, nat)>, j: nat)
    requires forall k :: j <= k < e.count ==> (i, k) !in lost
    requires j <= e.count
    ensures Attempts(i, e, lost, j) == e.count
    decreases e.count - j
  {
    if j < e.count { AttemptsAllDelivered(i, e, lost, j + 1); }
  }

  /** A failed send ends the entry: nothing after chunk next + j is sent for it. */
  lemma {:induction false} FailureEndsEntry(i: nat, e: Entry, lost: set<(nat, nat)>, j: nat, k: nat)
    requires k <= j < e.count
    requires forall l :: k <= l < j ==> (i, l) !in lost
    requires (i, j) in lost
    ensures Attempts(i, e, lost, k) == j + 1
    decreases j - k
  {
    if k < j { FailureEndsEntry(i, e, lost, j, k + 1); }
  }

  /**
   * The map scan of ftp_status_reply over the first n map bytes; with
   * resetCount the run counter restarts after every entry.
   */
  method StatusScan(m: seq<byte>, n: nat, limit: nat, resetCount: bool) returns (scan: Scan)
    requires n <= |m|
    ensures !resetCount ==> scan == Encode(m, n, limit)
    ensures resetCount ==> scan == EncodeRuns(m, n, limit)
  {
    scan := Scan(0, [], 0, 0);
    var i: nat := 0;
    while i < n
      invariant i <= n
      invariant !resetCount ==> scan == ScanUpTo(m, i, n, limit)
      invariant resetCount ==> scan == ScanRunsUpTo(m, i, n, limit)
    {
      scan := if resetCount then StepRuns(scan, i, m[i] == PLUS, n, limit)
              else Step(scan, i, m[i] == PLUS, n, limit);
      i := i + 1;
    }
  }

  /** Some send of entry i fails. */
  predicate EntryFails(i: nat, e: Entry, lost: set<(nat, nat)>)
  {
    exists j :: 0 <= j < e.count && (i, j) in lost
  }

  /**
   * One entry of ftp_data: its chunks in order, until a send fails; the
   * packets it hands to the connection, in order, and whether one failed.
   */
  method EntryPackets(file: seq<byte>, cs: int, i: nat, e: Entry, lost: set<(nat, nat)>)
    returns (packets: seq<Message>, failed: bool)
    requires ValidChunkSize(cs)
    ensures packets == EntryMessages(file, cs, i, e, lost)
    ensures failed == EntryFails(i, e, lost)
  {
    packets := [];
    var j: nat := 0;
    while j < e.count
      invariant j <= e.count
      invariant forall k :: 0 <= k < j ==> (i, k) !in lost
      invariant packets == ChunkRun(file, cs, e.next, j)
    {
      packets := packets + [ChunkMessage(file, cs, (e.next + j) % U32)];
      if (i, j) in lost {
        FailureEndsEntry(i, e, lost, j, 0);
        return packets, true;
      }
      j := j + 1;
    }
    AttemptsAllDelivered(i, e, lost, 0);
    failed := false;
  }

  /** The first entry from i on with a failed send, or |entries| when none fails. */
  function FirstFailure(entries: seq<Entry>, lost: set<(nat, nat)>, i: nat): (f: nat)
    requires i <= |entries|
    ensures i <= f <= |entries|
    ensures forall k :: i <= k < f ==> !EntryFails(k, entries[k], lost)
    ensures f < |entries| ==> EntryFails(f, entries[f], lost)
    decreases |entries| - i
  {
    if i == |entries| then i
    else if EntryFails(i, entries[i], lost) then i
    else FirstFailure(entries, lost, i + 1)
  }

  /** The packets of fewer entries are a prefix of the packets of more. */
  lemma {:induction false} DataPlanPrefix(file: seq<byte>, cs: int, entries: seq<Entry>, lost: set<(nat, nat)>,
                                          m: nat, n: nat)
    requires ValidChunkSize(cs) && m <= n <= |entries|
    ensures DataPlan(file, cs, entries, lost, m) <= DataPlan(file, cs, entries, lost, n)
    decreases n
  {
    if m < n {
      DataPlanPrefix(file, cs, entries, lost, m, n - 1);
    }
  }

  /**
   * As written: ftp_data closes the connection after the first failed send
   * and goes on with the next entry, so packets of every later entry with
   * chunks to send are handed to the closed connection.
   */
  lemma {:induction false} DataSentAfterClose(file: seq<byte>, cs: int, entries: seq<Entry>,
                                              lost: set<(nat, nat)>, k: nat)
    requires ValidChunkSize(cs)
    requires FirstFailure(entries, lost, 0) < k < |entries| && entries[k].count > 0
    ensures DataPlan(file, cs, entries, lost, FirstFailure(entries, lost, 0) + 1) <
            DataPlan(file, cs, entries, lost, |entries|)
  {
    var f := FirstFailure(entries, lost, 0);
    DataPlanPrefix(file, cs, entries, lost, f + 1, k);
    DataPlanPrefix(file, cs, entries, lost, k + 1, |entries|);
    assert |EntryMessages(file, cs, k, entries[k], lost)| > 0;
  }

  class Client {
    /** FTP_PATH_LENGTH and FTP_STATUS_CHUNKS, and chksum_crc32_step. */
    const pathLength: nat
    const statusLimit: nat
    const crcStep: CrcStep

    /** The local file system. */
    var files: map<string, seq<byte>>
    /** fp and fp_map: the path each is open on, if any. */
    var data: Option<string>
    var marks: Option<string>
    /** conn != NULL */
    var connected: bool
    var chunkSize: int
    var fileSize: u32
    var chunks: u32
    var checksum: bv32
    var fileName: string
    /** last_status[0 .. last_entries) */
    var lastStatus: seq<Entry>
    var sent: seq<Message>

    predicate Valid()
      reads this
    {
      && ValidChunkSize(chunkSize)
      && pathLength > 0
      && (data.Some? ==> data.value in files)
      && (marks.Some? ==> marks.value in files)
    }

    constructor(pathLength: nat, statusLimit: nat, crcStep: CrcStep, files: map<string, seq<byte>>)
      requires pathLength > 0
      ensures Valid()
      ensures this.pathLength == pathLength && this.statusLimit == statusLimit && this.crcStep == crcStep
      ensures this.files == files && data == None && marks == None && !connected
      ensures chunkSize == 175 && fileSize == 0 && chunks == 0 && checksum == 0xABCD0123
      ensures fileName == "" && lastStatus == [] && sent == []
    {
      this.pathLength := pathLength;
      this.statusLimit := statusLimit;
      this.crcStep := crcStep;
      this.files := files;
      data := None;
      marks := None;
      connected := false;
      chunkSize := 175;
      fileSize := 0;
      chunks := 0;
      checksum := 0xABCD0123;
      fileName := "";
      lastStatus := [];
      sent := [];
    }

    static method ChunksFor(size: u32, cs: int) returns (n: u32)
      requires ValidChunkSize(cs)
      ensures n == ChunkCount(size, cs)
    {
      n := ChunkCount(size, cs);
    }

    /**
     * ftp_upload: open the local file, take its CRC and size, fix the
     * chunk geometry and ask the server to accept the upload.
     */
    method Upload(path: string, backend: byte, cs: int, memAddr: u32, remote: string,
                  link: Link<UploadReply>)
      returns (r: int, size: u32, crc: bv32)
      requires Valid() && ValidChunkSize(cs)
      modifies this`data, this`checksum, this`chunkSize, this`fileSize, this`chunks,
               this`fileName, this`connected, this`sent
      ensures Valid()
      ensures path !in files ==>
                r == -1 && data == None && connected == old(connected) && sent == old(sent) &&
                chunkSize == old(chunkSize) && fileSize == old(fileSize) && chunks == old(chunks) &&
                checksum == old(checksum) && fileName == old(fileName)
      ensures path in files ==>
                && data == Some(path)
                && crc == FileCrc(crcStep, files[path]) && checksum == crc
                && size == |files[path]| % U32 && fileSize == size
                && chunkSize == cs && chunks == ChunkCount(size, cs)
                && fileName == Prefix(path, pathLength)
                && connected == !link.NoConnection?
                && sent == old(sent) + (if link.NoConnection? then []
                                        else [UploadRequest(cs % 0x1_0000, size, crc, memAddr, backend,
                                                            Prefix(remote, pathLength))])
                && (r == 0 <==> link.Reply? && link.reply.isUploadReply && link.reply.ret == Ok)
                && (r == 0 || r == -1)
    {
      size, crc, r := 0, 0, -1;
      if path !in files {
        data := None;
        return;
      }
      size, crc := OpenUpload(path, cs);
      r := RequestUpload(size, crc, cs, memAddr, backend, remote, link);
    }

    /** The local half of ftp_upload: the open file's CRC, size and chunk geometry. */
    method OpenUpload(path: string, cs: int) returns (size: u32, crc: bv32)
      requires Valid() && ValidChunkSize(cs) && path in files
      modifies this`data, this`checksum, this`chunkSize, this`fileSize, this`chunks, this`fileName
      ensures Valid()
      ensures data == Some(path) && crc == FileCrc(crcStep, files[path]) && checksum == crc
      ensures size == |files[path]| % U32 && fileSize == size
      ensures chunkSize == cs && chunks == ChunkCount(size, cs)
      ensures fileName == Prefix(path, pathLength)
    {
      var content := files[path];
      crc := ComputeFileCrc(crcStep, content);
      size := |content| % U32;
      data, checksum, chunkSize, fileSize := Some(path), crc, cs, size;
      chunks := ChunksFor(size, cs);
      fileName := Prefix(path, pathLength);
    }

    /** The network half of ftp_upload: connect, send the request, check the reply. */
    method RequestUpload(size: u32, crc: bv32, cs: int, memAddr: u32, backend: byte, remote: string,
                         link: Link<UploadReply>) returns (r: int)
      modifies this`connected, this`sent
      ensures connected == !link.NoConnection?
      ensures sent == old(sent) + (if link.NoConnection? then []
                                   else [UploadRequest(cs % 0x1_0000, size, crc, memAddr, backend,
                                                       Prefix(remote, pathLength))])
      ensures r == 0 <==> link.Reply? && link.reply.isUploadReply && link.reply.ret == Ok
      ensures r == 0 || r == -1
    {
      r := -1;
      connected := !link.NoConnection?;
      if link.NoConnection? {
        return;
      }
      sent := sent + [UploadRequest(cs % 0x1_0000, size, crc, memAddr, backend, Prefix(remote, pathLength))];
      if link.Reply? && link.reply.isUploadReply && link.reply.ret == Ok {
        r := 0;
      }
    }

    /** The server accepted the download request. */
    static predicate DownloadAccepted(link: Link<DownloadReply>)
    {
      link.Reply? && link.reply.isDownloadReply && link.reply.ret == Ok
    }

    /**
     * ftp_download: ask the server for the file, then open the local data
     * file (creating it if absent) and its chunk map. A missing map is
     * created with every chunk marked '-' only for a newly created data
     * file; an existing data file without a map is refused. `unwritable`
     * holds the paths where fopen(..., "w+") fails.
     */
    method Download(path: string, backend: byte, cs: int, memAddr: u32, memSize: u32,
                    remote: Option<string>, link: Link<DownloadReply>, unwritable: set<string>)
      returns (r: DownloadStatus, size: u32)
      requires Valid() && ValidChunkSize(cs)
      modifies this`chunkSize, this`fileName, this`connected, this`sent, this`fileSize,
               this`checksum, this`chunks, this`files, this`data, this`marks
      ensures Valid()
      ensures chunkSize == cs && fileName == Prefix(path, pathLength - 1)
      ensures connected == !link.NoConnection?
      ensures sent == old(sent) + (if link.NoConnection? then []
                                   else [DownloadRequest(cs % 0x1_0000, memAddr, memSize, backend,
                                                         Prefix(if remote.Some? then remote.value else "",
                                                                pathLength - 1))])
      ensures !DownloadAccepted(link) ==>
                r == Failed && files == old(files) && data == old(data) && marks == old(marks) &&
                fileSize == old(fileSize) && checksum == old(checksum) && chunks == old(chunks)
      ensures DownloadAccepted(link) ==>
                && fileSize == link.reply.size && size == fileSize
                && checksum == link.reply.crc && chunks == ChunkCount(fileSize, cs)
      ensures DownloadAccepted(link) && path !in old(files) && path in unwritable ==>
                r == Failed && data == None && marks == old(marks) && files == old(files)
      ensures DownloadAccepted(link) && (path in old(files) || path !in unwritable) ==>
                var created := if path in old(files) then old(files) else old(files)[path := []];
                && (MapName(path) in old(files) ==>
                      r == Started && data == Some(path) && marks == Some(MapName(path)) && files == created)
                && (MapName(path) !in old(files) && path in old(files) ==>
                      r == AlreadyExists && data == None && marks == None && files == old(files))
                && (MapName(path) !in old(files) && path !in old(files) && MapName(path) in unwritable ==>
                      r == IoError && data == None && marks == None && files == created)
                && (MapName(path) !in old(files) && path !in old(files) && MapName(path) !in unwritable ==>
                      r == Started && data == Some(path) && marks == Some(MapName(path)) &&
                      files == created[MapName(path) := Repeat(MINUS, chunks)])
    {
      size := 0;
      var accepted := RequestDownload(path, backend, cs, memAddr, memSize, remote, link);
      if !accepted {
        return Failed, size;
      }
      size := fileSize;
      r := OpenDownloadFiles(path, unwritable);
    }

    /**
     * The network half of ftp_download: send the request and, once the
     * server accepts, take over its size and CRC and fix the chunk count.
     */
    method RequestDownload(path: string, backend: byte, cs: int, memAddr: u32, memSize: u32,
                           remote: Option<string>, link: Link<DownloadReply>)
      returns (accepted: bool)
      requires ValidChunkSize(cs) && pathLength > 0
      modifies this`chunkSize, this`fileName, this`connected, this`sent, this`fileSize,
               this`checksum, this`chunks
      ensures accepted == DownloadAccepted(link)
      ensures chunkSize == cs && fileName == Prefix(path, pathLength - 1)
      ensures connected == !link.NoConnection?
      ensures sent == old(sent) + (if link.NoConnection? then []
                                   else [DownloadRequest(cs % 0x1_0000, memAddr, memSize, backend,
                                                         Prefix(if remote.Some? then remote.value else "",
                                                                pathLength - 1))])
      ensures !accepted ==>
                fileSize == old(fileSize) && checksum == old(checksum) && chunks == old(chunks)
      ensures accepted ==>
                fileSize == link.reply.size && checksum == link.reply.crc &&
                chunks == ChunkCount(fileSize, cs)
    {
      chunkSize := cs;
      fileName := Prefix(path, pathLength - 1);
      connected := !link.NoConnection?;
      if link.NoConnection? {
        return false;
      }
      sent := sent + [DownloadRequest(cs % 0x1_0000, memAddr, memSize, backend,
                                      Prefix(if remote.Some? then remote.value else "", pathLength - 1))];
      if link.NoReply? || !link.reply.isDownloadReply || link.reply.ret != Ok {
        return false;
      }
      fileSize := link.reply.size;
      checksum := link.reply.crc;
      chunks := ChunksFor(fileSize, cs);
      accepted := true;
    }

    /**
     * The local half of ftp_download: open or create the data file, then
     * open its map, or create one of ftp_chunks '-' bytes for a new file.
     * A data file that cannot be created gives -1; a map that cannot be
     * created gives FTP_RET_IO and leaves the new, empty data file behind.
     */
    method OpenDownloadFiles(path: string, unwritable: set<string>) returns (r: DownloadStatus)
      requires Valid()
      modifies this`files, this`data, this`marks
      ensures Valid()
      ensures path !in old(files) && path in unwritable ==>
                r == Failed && data == None && marks == old(marks) && files == old(files)
      ensures path in old(files) || path !in unwritable ==>
                var created := if path in old(files) then old(files) else old(files)[path := []];
                && (MapName(path) in old(files) ==>
                      r == Started && data == Some(path) && marks == Some(MapName(path)) && files == created)
                && (MapName(path) !in old(files) && path in old(files) ==>
                      r == AlreadyExists && data == None && marks == None && files == old(files))
                && (MapName(path) !in old(files) && path !in old(files) && MapName(path) in unwritable ==>
                      r == IoError && data == None && marks == None && files == created)
                && (MapName(path) !in old(files) && path !in old(files) && MapName(path) !in unwritable ==>
                      r == Started && data == Some(path) && marks == Some(MapName(path)) &&
                      files == created[MapName(path) := Repeat(MINUS, chunks)])
    {
      var newFile := false;
      if path !in files {
        if path in unwritable {
          data := None;
          return Failed;
        }
        newFile := true;
        files := files[path := []];
      }
      data := Some(path);
      var mapPath := MapName(path);
      if mapPath in files {
        marks := Some(mapPath);
        return Started;
      }
      marks := None;
      if !newFile {
        data := None;
        return AlreadyExists;
      }
      if mapPath in unwritable {
        data := None;
        return IoError;
      }
      ClearMap(mapPath);
      marks := Some(mapPath);
      r := Started;
    }

    /** Create the map with one '-' per chunk. */
    method ClearMap(mapPath: string)
      modifies this`files
      ensures files == old(files)[mapPath := Repeat(MINUS, chunks)]
    {
      files := files[mapPath := []];
      var i: nat := 0;
      while i < chunks
        invariant i <= chunks
        invariant files == old(files)[mapPath := Repeat(MINUS, i)]
      {
        assert Repeat(MINUS, i + 1) == Repeat(MINUS, i) + [MINUS];
        files := files[mapPath := files[mapPath] + [MINUS]];
        i := i + 1;
      }
    }

    /**
     * ftp_status_reply: report the map to the server, then store the
     * chunks it sends until the last one has arrived.
     */
    method StatusReply(delivered: bool, incoming: seq<Packet>) returns (r: int)
      requires Valid() && data.Some? && marks.Some? && data.value != marks.value
      requires chunks == ChunkCount(fileSize, chunkSize)
      modifies this`files, this`sent
      ensures Valid()
      ensures r == 0 || r == -1
      ensures |old(files)[marks.value]| < chunks ==> r == -1 && files == old(files) && sent == old(sent)
      ensures |old(files)[marks.value]| >= chunks ==>
                var scan := Encode(old(files)[marks.value], chunks, statusLimit);
                && sent == old(sent) + [StatusReport(scan.complete, chunks, scan.entries)]
                && (!delivered ==> r == -1 && files == old(files))
                && (delivered ==>
                      var rec := Receive(old(files)[data.value], old(files)[marks.value], incoming,
                                         fileSize, chunkSize);
                      (r == 0 <==> rec.ok) &&
                      files == old(files)[data.value := rec.data][marks.value := rec.marks])
    {
      var dp, mp := data.value, marks.value;
      var cs, size, n := chunkSize, fileSize, chunks;
      var m := files[mp];
      // Build the status reply from the first ftp_chunks map bytes.
      if |m| < n {
        return -1;
      }
      var scan := StatusScan(m, n, statusLimit, false);
      sent := sent + [StatusReport(scan.complete, n, scan.entries)];
      if !delivered {
        return -1;
      }
      r := ReceiveChunks(dp, mp, incoming, size, cs, n);
    }

    /**
     * ftp_status_reply with the run counter reset after every entry: the
     * report lists the maximal runs of missing chunks.
     */
    method StatusReplyReportingRuns(delivered: bool, incoming: seq<Packet>) returns (r: int)
      requires Valid() && data.Some? && marks.Some? && data.value != marks.value
      requires chunks == ChunkCount(fileSize, chunkSize)
      modifies this`files, this`sent
      ensures Valid()
      ensures r == 0 || r == -1
      ensures |old(files)[marks.value]| < chunks ==> r == -1 && files == old(files) && sent == old(sent)
      ensures |old(files)[marks.value]| >= chunks ==>
                var m := old(files)[marks.value];
                && sent == old(sent) + [StatusReport(ReceivedUpTo(m, chunks), chunks,
                                                     Prefix(Runs(m, chunks), statusLimit))]
                && (!delivered ==> r == -1 && files == old(files))
                && (delivered ==>
                      var rec := Receive(old(files)[data.value], m, incoming, fileSize, chunkSize);
                      (r == 0 <==> rec.ok) &&
                      files == old(files)[data.value := rec.data][marks.value := rec.marks])
    {
      var dp, mp := data.value, marks.value;
      var cs, size, n := chunkSize, fileSize, chunks;
      var m := files[mp];
      if |m| < n {
        return -1;
      }
      var scan := StatusScan(m, n, statusLimit, true);
      CorrectedReportsRuns(m, n, statusLimit);
      sent := sent + [StatusReport(scan.complete, n, scan.entries)];
      if !delivered {
        return -1;
      }
      r := ReceiveChunks(dp, mp, incoming, size, cs, n);
    }

    /** The receive loop of ftp_status_reply. */
    method ReceiveChunks(dp: string, mp: string, incoming: seq<Packet>, size: u32, cs: int, n: u32)
      returns (r: int)
      requires dp in files && mp in files && dp != mp
      requires ValidChunkSize(cs) && n == ChunkCount(size, cs)
      modifies this`files
      ensures var rec := Receive(old(files)[dp], old(files)[mp], incoming, size, cs);
              (r == 0 <==> rec.ok) && (r == 0 || r == -1) &&
              files == old(files)[dp := rec.data][mp := rec.marks]
    {
      var d, m := files[dp], files[mp];
      var rest := incoming;
      ghost var goal := Receive(d, m, incoming, size, cs);
      while true
        invariant files == old(files)[dp := d][mp := m]
        invariant Receive(d, m, rest, size, cs) == goal
        decreases |rest|
      {
        if rest == [] {
          return -1;
        }
        var packet := rest[0];
        if packet.ServerIoError? {
          return -1;
        }
        var idx := Be32(packet.index);
        if idx >= n {
          rest := rest[1..];
          continue;
        }
        var len := ChunkLength(size, cs, idx);
        d := WriteAt(d, ChunkStart(cs, idx), Fit(packet.payload, len));
        m := WriteAt(m, idx, [PLUS]);
        files := files[dp := d][mp := m];
        if idx == n - 1 {
          return 0;
        }
        rest := rest[1..];
      }
    }

    /** ftp_status_request: ask the server which chunks of an upload it lacks. */
    method StatusRequestOp(link: Option<StatusAnswer>) returns (r: int)
      modifies this`sent, this`lastStatus
      ensures sent == old(sent) + [StatusRequest]
      ensures !(link.Some? && link.value.isStatusReply && link.value.ret == Ok) ==>
                r == -1 && lastStatus == old(lastStatus)
      ensures link.Some? && link.value.isStatusReply && link.value.ret == Ok ==>
                r == 0 &&
                lastStatus == (if link.value.complete != link.value.total then link.value.entries else [])
    {
      sent := sent + [StatusRequest];
      if link.None? || !link.value.isStatusReply || link.value.ret != Ok {
        return -1;
      }
      if link.value.complete != link.value.total {
        lastStatus := link.value.entries;
      } else {
        lastStatus := [];
      }
      r := 0;
    }

    /**
     * ftp_data: send every chunk the last status reply listed, entry by
     * entry; a failed send abandons the rest of that entry only.
     * lost holds the pairs (i, j) whose send of attempt j for entry i fails.
     */
    method SendData(lost: set<(nat, nat)>) returns (r: int)
      requires Valid() && data.Some?
      modifies this`sent
      ensures r == 0
      ensures sent == old(sent) + DataPlan(files[data.value], chunkSize, lastStatus, lost, |lastStatus|)
    {
      var file := files[data.value];
      var cs := chunkSize;
      var entries := lastStatus;
      assert ValidChunkSize(cs);
      var out: seq<Message> := [];
      var i: nat := 0;
      while i < |entries|
        invariant i <= |entries|
        invariant out == DataPlan(file, cs, entries, lost, i)
        invariant sent == old(sent)
      {
        var packets, _ := EntryPackets(file, cs, i, entries[i], lost);
        assert DataPlan(file, cs, entries, lost, i + 1) == out + packets;
        out := out + packets;
        i := i + 1;
      }
      sent := sent + out;
      r := 0;
    }

    /**
     * ftp_data giving up the whole transfer at the first failed send: the
     * connection is dropped, nothing more is sent and -1 is returned.
     */
    method SendDataClosingOnFailure(lost: set<(nat, nat)>) returns (r: int)
      requires Valid() && data.Some?
      modifies this`sent, this`connected
      ensures var f := FirstFailure(lastStatus, lost, 0);
        sent == old(sent) + DataPlan(files[data.value], chunkSize, lastStatus, lost,
                                     if f < |lastStatus| then f + 1 else |lastStatus|)
      ensures r == 0 <==> FirstFailure(lastStatus, lost, 0) == |lastStatus|
      ensures r == 0 || r == -1
      ensures connected == (old(connected) && r == 0)
    {
      var file := files[data.value];
      var cs := chunkSize;
      var entries := lastStatus;
      assert ValidChunkSize(cs);
      var out: seq<Message> := [];
      var i: nat := 0;
      while i < |entries|
        invariant i <= |entries|
        invariant FirstFailure(entries, lost, 0) >= i
        invariant out == DataPlan(file, cs, entries, lost, i)
        invariant sent == old(sent) && connected == old(connected)
      {
        var packets, failed := EntryPackets(file, cs, i, entries[i], lost);
        assert DataPlan(file, cs, entries, lost, i + 1) == out + packets;
        out := out + packets;
        if failed {
          sent := sent + out;
          connected := false;
          return -1;
        }
        i := i + 1;
      }
      sent := sent + out;
      r := 0;
    }

    /**
     * ftp_crc: ask the server for its CRC of the file, recompute the local
     * one and compare.
     */
    method Crc(link: Option<CrcReply>) returns (r: int)
      requires Valid() && data.Some?
      modifies this`sent, this`checksum
      ensures sent == old(sent) + [CrcRequest]
      ensures !(link.Some? && link.value.isCrcReply && link.value.ret == Ok) ==>
                r == -1 && checksum == old(checksum)
      ensures link.Some? && link.value.isCrcReply && link.value.ret == Ok ==>
                checksum == FileCrc(crcStep, files[data.value]) &&
                (r == 0 <==> link.value.crc == checksum) && (r == 0 || r == -1)
    {
      sent := sent + [CrcRequest];
      if link.None? || !link.value.isCrcReply || link.value.ret != Ok {
        return -1;
      }
      checksum := ComputeFileCrc(crcStep, files[data.value]);
      if link.value.crc != checksum {
        return -1;
      }
      r := 0;
    }

    /**
     * ftp_done: close both files, optionally remove the chunk map (by the
     * name rebuilt from ftp_file_name), tell the server, drop the
     * connection and forget the last status.
     */
    method Done(removeMap: bool) returns (r: int)
      requires Valid()
      modifies this`data, this`marks, this`files, this`sent, this`connected, this`lastStatus
      ensures Valid()
      ensures data == None && marks == None && !connected && lastStatus == [] && r == 0
      ensures sent == old(sent) + [DoneRequest]
      ensures files == if removeMap then old(files) - {DoneMapName(fileName, pathLength)} else old(files)
    {
      marks := None;
      data := None;
      if removeMap {
        files := files - {DoneMapName(fileName, pathLength)};
      }
      sent := sent + [DoneRequest];
      connected := false;
      lastStatus := [];
      r := 0;
    }

    /**
     * ftp_done with the map removed by the name it was opened under, so
     * that a completed download never leaves its map behind.
     */
    method DoneRemovingOpenedMap(removeMap: bool) returns (r: int)
      requires Valid()
      modifies this`data, this`marks, this`files, this`sent, this`connected, this`lastStatus
      ensures Valid()
      ensures data == None && marks == None && !connected && lastStatus == [] && r == 0
      ensures sent == old(sent) + [DoneRequest]
      ensures removeMap && old(marks).Some? ==> files == old(files) - {old(marks).value}
      ensures removeMap && old(marks).Some? ==> old(marks).value !in files
      ensures !(removeMap && old(marks).Some?) ==> files == old(files)
    {
      var openedMap := marks;
      marks := None;
      data := None;
      if removeMap && openedMap.Some? {
        files := files - {openedMap.value};
      }
      sent := sent + [DoneRequest];
      connected := false;
      lastStatus := [];
      r := 0;
    }
  }
}
