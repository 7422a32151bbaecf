# csp-client core, modelled in Dafny

This project models the core of csp-client, the ground-segment shell for
CubeSat Space Protocol (CSP) subsystems. The core is these parts:

- **The chunked, resumable FTP client.** This is `ftp_client.c`.
  - An upload or download is cut into chunks of `ftp_chunk_size` bytes.
  - A download keeps a sibling `<path>.map` file with one byte per chunk: `'-'` for missing, `'+'` for received.
  - The status reply scans that map and tells the server which runs of chunks are still missing.
  - The receive loop writes each arriving chunk at `index * chunk_size` and then marks it.
  - The upload side sends the chunks the server reported missing.
  - A CRC-32 comparison and `ftp_done` close the transfer.
- **The `ftp` shell commands.** This is `cmd_ftp.c`. It covers argument and path checks, `ftp_basename`, the shared settings, and the order of the transfer phases. It also decides when the `.map` is removed.
- **The host logging library.** This is `log.c`. Each log group has a print mask and a store mask. The library parses the comma-separated `[+|-]level` language, looks groups up, and decides whether an event is printed or stored.
- **The remote-log client commands.** This is `cmd_rlog.c`. It covers `rlog list`, `print`/`store`, `query` and `hist`. It holds the group table, edits the query masks, and parses the history time filter.
- **The parameter-table helpers.** This is `param_string.c`. It covers lookup by name and by address, type names, parsing of BOOL/STRING/DATA values, and rendering values as text.
- **The remote-parameter client.** This is `rparam_client.c`. It covers the bounded query buffer, the copy/save/load/clear commands, byte-order autodetection of a downloaded table, and the checks on single-value replies.
- **`gosh_getopt`.** This is `getopt.c`, the option scanner of the shell.
- **NanoCam helpers.** This is `cmd_nanocam.c`. It covers the format names, the histogram colours and bar lengths, the `recoverfs` timeout floor, and the chunked `peek` dump.
- **The `min`/`max`/`clamp` macros.** This is `minmax.h`.

Where the C code updates state step by step, the model is a class with `modifies` clauses, and its loops carry invariants. Each such method is proved against a function that specifies it. The properties the code promises are proved about those functions as lemmas. The classes are:

- `FtpClient.Client`
- `FtpCommands.Shell`
- `LogHost.Log`
- `RemoteLog.RemoteLogClient`
- `RemoteParam.Query`
- `GetOpt.Context`
- `NanoCam.Settings`

C's unsigned wrap-around is written out, and so is the `snprintf` return value.

Modules, one per file:

- `Common`: C string helpers, the tokens of `strtok`, file writes at an offset, and the integer types.
- `MinMax`
- `FtpGeometry`, `FtpStatus`, `FtpCrc`, `FtpTransfer`, `FtpClient`
- `FtpCommands`
- `LogHost`, `RemoteLog`
- `ParamTable`, `RemoteParam`
- `GetOpt`
- `NanoCam`

## Model

| member | source | states |
|---|---|---|
| MinMax.Min | lib/libutil/include/util/minmax.h:4-7 | The result is the smaller of x and y and is one of them. A tie yields y. |
| MinMax.Max | lib/libutil/include/util/minmax.h:9-12 | The result is the larger of x and y and is one of them. |
| MinMax.Min3 | lib/libutil/include/util/minmax.h:14 | The result is below or equal to each of the three and is one of them. |
| MinMax.Max3 | lib/libutil/include/util/minmax.h:16 | The result is above or equal to each of the three and is one of them. |
| MinMax.Clamp | lib/libutil/include/util/minmax.h:18-19 | With lo <= hi the result is in [lo, hi] and equals x when x is in range. Below lo it gives lo, above hi it gives hi. With lo > hi the result is hi. |
| MinMax.ClampIdempotent | lib/libutil/include/util/minmax.h:18-19 | Clamping an already clamped value changes nothing. |
| Common.Decimal | lib/libftp/src/ftp/ftp_client.c:113-119 | The %u text of a number: decimal digits that read back as the number. |
| FtpGeometry.ChunkCountIsCeiling | lib/libftp/src/ftp/ftp_client.c:177 | When size + chunk_size - 1 does not wrap, the chunk count is the ceiling of size / chunk_size. A zero-byte file has 0 chunks, and the last chunk starts inside the file. |
| FtpGeometry.ChunkCount | lib/libftp/src/ftp/ftp_client.c:177 | ftp_chunks, with size + chunk_size - 1 taken modulo 2^32 before the division. Its properties are ChunkCountIsCeiling and NearFourGiBGetsNoChunks. |
| FtpGeometry.NearFourGiBGetsNoChunks | lib/libftp/src/ftp/ftp_client.c:177 | The unsigned sum wraps. A file of 0xFFFFFFFF bytes with chunk size 175 gets 0 chunks. |
| FtpGeometry.ChunkLength | lib/libftp/src/ftp/ftp_client.c:541-547 | Every chunk carries between 1 and chunk_size bytes. |
| FtpGeometry.ChunkStartsInsideFile | lib/libftp/src/ftp/ftp_client.c:177 | For any file size, a chunk below the count starts strictly inside the file, so index * chunk_size never wraps. |
| FtpGeometry.ChunkExtent | lib/libftp/src/ftp/ftp_client.c:541-547 | Each chunk lies inside the file. The last chunk ends exactly at the file size, and every other chunk ends where the next one starts. So the lengths sum to the size. |
| FtpGeometry.ChunksDisjoint | lib/libftp/src/ftp/ftp_client.c:541-553 | Two different chunks never overlap in the file. |
| FtpGeometry.ByteInChunk | lib/libftp/src/ftp/ftp_client.c:541-553 | Every byte k of the file lies in chunk k / chunk_size. |
| FtpGeometry.SplitSeconds | lib/libftp/src/ftp/ftp_client.c:101-123 | The hour/minute/second split has minutes and seconds below 60 and adds back to the total. |
| FtpGeometry.SplitSecondsUnique | lib/libftp/src/ftp/ftp_client.c:101-123 | The split is the only such reading of the total. |
| FtpGeometry.SecToTime | lib/libftp/src/ftp/ftp_client.c:101-123 | The text is empty exactly for zero seconds. Under a minute it is "<s>s". |
| FtpStatus.Step | lib/libftp/src/ftp/ftp_client.c:474-492 | One iteration of the status loop for chunk i. Its effect on complete, on next and count, and on the entries is stated by CompleteCountsReceived, EntriesStartAtFirstMissing and OverlappingEntriesAsWritten. |
| FtpStatus.ScanUpTo | lib/libftp/src/ftp/ftp_client.c:458-493 | The loop state after the first k chunks. Encode is its state after all of them. |
| FtpStatus.Encode | lib/libftp/src/ftp/ftp_client.c:458-493 | The complete count and the entries the status reply carries, as written. Their properties are the lemmas below. |
| FtpStatus.ReceivedUpTo | lib/libftp/src/ftp/ftp_client.c:474-478 | The number of received chunks among the first k map bytes is at most k. |
| FtpStatus.CompleteCountsReceived | lib/libftp/src/ftp/ftp_client.c:458-478 | `complete` equals the number of '+' bytes among the first ftp_chunks map bytes. It keeps counting after the entry limit is hit. |
| FtpStatus.EntriesBounded | lib/libftp/src/ftp/ftp_client.c:480-492 | The reply never carries more than FTP_STATUS_CHUNKS entries. |
| FtpStatus.EntriesStartAtFirstMissing | lib/libftp/src/ftp/ftp_client.c:480-492 | Every entry starts at the lowest missing chunk and has a positive count, and the counts never decrease. |
| FtpStatus.NothingMissingNoEntries | lib/libftp/src/ftp/ftp_client.c:458-493 | A map with every chunk received gives 0 entries and complete = ftp_chunks. |
| FtpStatus.SomeMissingGivesEntry | lib/libftp/src/ftp/ftp_client.c:480-492 | If some chunk is missing and the limit is positive, there is at least one entry. |
| FtpStatus.AllMissingOneEntry | lib/libftp/src/ftp/ftp_client.c:458-493 | A fresh map (all '-') gives exactly one entry {0, ftp_chunks} and complete = 0. |
| FtpStatus.AllReceivedBefore | lib/libftp/src/ftp/ftp_client.c:474-478 | If the count of received chunks equals k, each of the first k bytes is '+'. |
| FtpStatus.OverlappingEntriesAsWritten | lib/libftp/src/ftp/ftp_client.c:480-492 | As written, the map "-+-+" is reported as (0,1), (0,2). The intended maximal runs are (0,1), (2,1). |
| FtpStatus.Runs | lib/libftp/src/ftp/ftp_client.c:458-493 | Reference definition of the runs of missing chunks. Every run is non-empty and lies below k. The last run ends at k exactly when chunk k-1 is missing. |
| FtpStatus.RunsAreMaximal | lib/libftp/src/ftp/ftp_client.c:458-493 | Every run covers only missing chunks and is bounded by received chunks or the ends of the map. The runs are in increasing order. |
| FtpStatus.RunsCoverMissing | lib/libftp/src/ftp/ftp_client.c:458-493 | Every missing chunk lies in one of the runs. |
| FtpStatus.StepRuns | lib/libftp/src/ftp/ftp_client.c:480-492 | The loop step with count reset to 0 after each emitted entry. CorrectedReportsRuns states its effect. |
| FtpStatus.EncodeRuns | lib/libftp/src/ftp/ftp_client.c:458-493 | The corrected report. By CorrectedReportsRuns it is exactly the maximal runs of missing chunks, as far as FTP_STATUS_CHUNKS allows. |
| FtpStatus.CorrectedReportsRuns | lib/libftp/src/ftp/ftp_client.c:458-493 | With the counter reset after each entry, the report is exactly the first FTP_STATUS_CHUNKS runs of missing chunks, plus the received count. |
| FtpCrc.Fold | lib/libftp/src/ftp/ftp_client.c:131-136 | The running CRC after feeding the bytes one at a time with chksum_crc32_step. FoldAppend shows the 128-byte blocks do not matter. |
| FtpCrc.FileCrc | lib/libftp/src/ftp/ftp_client.c:125-142 | The CRC of a whole file: the fold from 0xFFFFFFFF, complemented. ComputeFileCrc computes it. |
| FtpCrc.FoldAppend | lib/libftp/src/ftp/ftp_client.c:125-142 | Feeding the CRC a then b equals feeding it a + b, so the 128-byte block size does not matter. |
| FtpCrc.ComputeFileCrc | lib/libftp/src/ftp/ftp_client.c:125-142 | The block loop yields the CRC of the whole file: seeded 0xFFFFFFFF, one step per byte, then xor 0xFFFFFFFF. |
| FtpTransfer.Le32 | lib/libftp/src/ftp/ftp_client.c:630-632 | The little-endian chunk number decodes back to the number. |
| FtpTransfer.Be32 | lib/libftp/src/ftp/ftp_client.c:526 | csp_ntoh32 of the received chunk number: the little-endian reading of the reversed bytes. |
| FtpTransfer.LeDecode | lib/libftp/src/ftp/ftp_client.c:630-632 | The little-endian chunk number. Its low byte is the first byte, and LeRoundTrip inverts it. |
| FtpTransfer.LeRoundTrip | lib/libftp/src/ftp/ftp_client.c:630-632 | Decoding and then encoding four wire bytes gives them back. |
| FtpTransfer.ByteOrdersDiffer | lib/libftp/src/ftp/ftp_client.c:526 | Upload sends chunk numbers little-endian and download reads them big-endian. Chunk 1 sent one way reads as 2^24 the other way. |
| FtpTransfer.Receive | lib/libftp/src/ftp/ftp_client.c:516-586 | The receive loop only ever grows the data file and the map. |
| FtpTransfer.ReceiveOkNeedsLastChunk | lib/libftp/src/ftp/ftp_client.c:516-586 | The loop succeeds only if chunk ftp_chunks-1 arrived. |
| FtpTransfer.LastChunkCompletes | lib/libftp/src/ftp/ftp_client.c:516-586 | Without a server error or timeout first, the loop succeeds once the last chunk arrives. |
| Common.WriteAt | lib/libftp/src/ftp/ftp_client.c:549-561 | fseek then fwrite: the written bytes land at the offset, other bytes keep their value, and a gap past the end reads as zeros. |
| FtpTransfer.WriteChunk | lib/libftp/src/ftp/ftp_client.c:549-561 | Writing one chunk leaves every other chunk's bytes unchanged. |
| FtpTransfer.ReceiveKeepsConsistent | lib/libftp/src/ftp/ftp_client.c:516-586 | The data is written before the map byte, so if every '+' chunk held the remote bytes before the loop, it still does after. Out-of-range chunks are dropped. |
| FtpTransfer.Consistent | lib/libftp/src/ftp/ftp_client.c:549-575 | Every chunk the map marks '+' holds the remote bytes. ReceiveKeepsConsistent, MarkKeepsConsistent and FreshMapConsistent show it is kept. |
| FtpTransfer.MarkKeepsConsistent | lib/libftp/src/ftp/ftp_client.c:549-575 | Writing a chunk and then marking only its own map byte keeps the map truthful. |
| FtpTransfer.CompleteMeansEqual | lib/libftp/src/ftp/ftp_client.c:541-575 | Once a truthful map marks every chunk received, the local file equals the remote file. |
| FtpTransfer.FreshMapConsistent | lib/libftp/src/ftp/ftp_client.c:300-309 | A freshly created all-'-' map is truthful. |
| FtpClient.MapName | lib/libftp/src/ftp/ftp_client.c:275 | The map path is the data path plus ".map". |
| FtpClient.DoneMapName | lib/libftp/src/ftp/ftp_client.c:664-666 | The name ftp_done removes is cut below FTP_PATH_LENGTH characters. |
| FtpClient.DoneRemovesCreatedMapIff | lib/libftp/src/ftp/ftp_client.c:664-666 | ftp_done(1) removes the map ftp_download created exactly when the local path is at most FTP_PATH_LENGTH-5 characters long. |
| FtpClient.Attempts | lib/libftp/src/ftp/ftp_client.c:611-641 | For each entry, ftp_data makes at most `count` send attempts. |
| FtpClient.ChunkMessage | lib/libftp/src/ftp/ftp_client.c:617-636 | A data packet whose little-endian number decodes to the chunk and whose payload is exactly chunk_size bytes. |
| FtpClient.EntryMessages | lib/libftp/src/ftp/ftp_client.c:613-641 | The packets of one entry: at most count of them, and at least one when count is positive. |
| FtpClient.DataPlan | lib/libftp/src/ftp/ftp_client.c:611-641 | The packets ftp_data sends for the first k entries, entry after entry. DataPlanPrefix and DataSentAfterClose relate its prefixes. |
| FtpClient.ChunkRun | lib/libftp/src/ftp/ftp_client.c:611-641 | An entry's packets carry chunks next, next+1, ... in order, with numbers modulo 2^32. |
| FtpClient.AllDeliveredSendsEveryChunk | lib/libftp/src/ftp/ftp_client.c:611-641 | When no send fails, entry (next, count) sends exactly count packets. Packet j carries chunk next+j, little-endian, with that chunk's chunk_size bytes of the file. |
| FtpClient.AttemptsAllDelivered | lib/libftp/src/ftp/ftp_client.c:611-641 | Without failures every chunk of the entry is attempted. |
| FtpClient.FailureEndsEntry | lib/libftp/src/ftp/ftp_client.c:636-640 | A failed send ends its entry: nothing after it is sent for that entry. |
| FtpClient.StatusScan | lib/libftp/src/ftp/ftp_client.c:458-493 | The scan loop computes the as-written encoding, or the run encoding when the counter is reset. |
| FtpClient.EntryPackets | lib/libftp/src/ftp/ftp_client.c:613-641 | The inner send loop hands the connection exactly the entry's planned packets. |
| FtpClient.Client.constructor | lib/libftp/src/ftp/ftp_client.c:36-46 | Initial state: chunk size 175, size 0, no chunks, checksum 0xABCD0123, no files open, no last status. |
| FtpClient.Client.ChunksFor | lib/libftp/src/ftp/ftp_client.c:177 | Computes the chunk count with the 32-bit wrap. |
| FtpClient.Client.Upload | lib/libftp/src/ftp/ftp_client.c:150-208 | A missing local file gives -1 with nothing changed. Otherwise the client records the file's CRC, size, geometry and name. It sends one upload request if it connects. It returns 0 exactly when the reply is an upload reply with OK. |
| FtpClient.Client.OpenUpload | lib/libftp/src/ftp/ftp_client.c:156-178 | Opening the upload records the CRC of the whole file, the size mod 2^32 and the chunk count. |
| FtpClient.Client.RequestUpload | lib/libftp/src/ftp/ftp_client.c:181-204 | One request goes out only if the connection opens. The result is 0 exactly for an OK upload reply. |
| FtpClient.Client.Download | lib/libftp/src/ftp/ftp_client.c:210-317 | A refused request leaves the files alone. A missing data file that cannot be created gives -1 with nothing opened. An existing map is reopened and the transfer starts. An existing data file without a map gives EXISTS with nothing opened or written. A new data file whose map cannot be created gives IO, leaving the new empty data file behind and nothing open. Otherwise the new map holds exactly ftp_chunks '-' bytes. |
| FtpClient.Client.RequestDownload | lib/libftp/src/ftp/ftp_client.c:216-254 | The request is sent if connected. Only an accepted reply sets the size, the CRC and the chunk count. |
| FtpClient.Client.OpenDownloadFiles | lib/libftp/src/ftp/ftp_client.c:263-313 | The five outcomes of opening the data file and its map: creation of the data file refused (-1), map reopened (started), data file without a map (EXISTS), map creation refused (IO, the created data file kept), and both created (started, map all '-'). |
| FtpClient.Client.ClearMap | lib/libftp/src/ftp/ftp_client.c:300-309 | The clearing loop writes exactly ftp_chunks '-' bytes. |
| FtpClient.Client.StatusReply | lib/libftp/src/ftp/ftp_client.c:447-598 | A map shorter than ftp_chunks fails before anything is sent. Otherwise the client sends one report with complete, total = ftp_chunks and the as-written entries. If that send succeeds, the files become what the receive loop makes of them. Success means the last chunk arrived. |
| FtpClient.Client.StatusReplyReportingRuns | lib/libftp/src/ftp/ftp_client.c:447-598 | Same as StatusReply, but the report lists the first FTP_STATUS_CHUNKS maximal runs of missing chunks. |
| FtpClient.Client.ReceiveChunks | lib/libftp/src/ftp/ftp_client.c:516-586 | The loop leaves the data file and map that Receive describes. It returns 0 exactly on success. |
| FtpClient.Client.StatusRequestOp | lib/libftp/src/ftp/ftp_client.c:319-364 | On a valid OK reply the entries are kept only when complete != total; otherwise none are kept. A failure gives -1 and leaves the last status as it was. |
| FtpClient.EntryFails | lib/libftp/src/ftp/ftp_client.c:617-640 | Some send of entry i is lost. |
| FtpClient.FirstFailure | lib/libftp/src/ftp/ftp_client.c:600-641 | The index of the first entry with a lost send, at or after i, or the number of entries. No entry before it fails, and the entry at it does. |
| FtpClient.DataPlanPrefix | lib/libftp/src/ftp/ftp_client.c:611-641 | The packets of the first m entries are a prefix of those of the first n entries. |
| FtpClient.DataSentAfterClose | lib/libftp/src/ftp/ftp_client.c:636-641 | As written: when the first failing entry is followed by a non-empty entry, more packets are sent than up to the failure, after the connection was closed. |
| FtpClient.Client.SendData | lib/libftp/src/ftp/ftp_client.c:600-649 | As written: the packets sent are those of every entry in order. Each entry stops at its first failed send, and later entries are still sent on the closed connection. The result is 0 even after failures. |
| FtpClient.Client.SendDataClosingOnFailure | lib/libftp/src/ftp/ftp_client.c:600-649 | Corrected: the packets sent stop at the first failed send, which closes the connection and gives -1. Without a failure every entry is sent, the result is 0 and the connection stays open. |
| FtpClient.Client.Crc | lib/libftp/src/ftp/ftp_client.c:687-719 | The result is 0 exactly when the reply is an OK CRC reply and its CRC equals the local CRC of the whole file. Otherwise it is -1. |
| FtpClient.Client.Done | lib/libftp/src/ftp/ftp_client.c:651-685 | Both files are closed, DONE is sent, the connection is dropped and the last status is forgotten. With removeMap, the name rebuilt from ftp_file_name is removed. |
| FtpClient.Client.DoneRemovingOpenedMap | lib/libftp/src/ftp/ftp_client.c:651-685 | As Done, but with removeMap the map that was open is removed and is gone afterwards. |
| Common.LastIndexOf | lib/libftp/src/ftp/cmd_ftp.c:70 | strrchr: the last index holding the character, or none when no character matches. |
| FtpCommands.Basename | lib/libftp/src/ftp/cmd_ftp.c:68-72 | The result is the suffix of the path after its last '/', and contains no '/'. |
| FtpCommands.BasenameWhole | lib/libftp/src/ftp/cmd_ftp.c:68-72 | The whole path is returned exactly when it contains no '/'. |
| FtpCommands.BasenameOfJoin | lib/libftp/src/ftp/cmd_ftp.c:68-72 | The base name of dir + "/" + name is name. |
| FtpCommands.BasenameIdempotent | lib/libftp/src/ftp/cmd_ftp.c:68-72 | Taking the base name twice changes nothing. |
| FtpCommands.Session | lib/libftp/src/ftp/cmd_ftp.c:90-108 | A session runs at most the given phases plus one ftp_done. |
| FtpCommands.SessionEndsInDone | lib/libftp/src/ftp/cmd_ftp.c:90-108 | Every session ends in exactly one ftp_done. It removes the map only when asked to and every phase succeeded. |
| FtpCommands.SessionRunsPrefix | lib/libftp/src/ftp/cmd_ftp.c:127-147 | Phases run in order, and the first failure stops them: no later phase runs. |
| FtpCommands.TransferDoneFlags | lib/libftp/src/ftp/cmd_ftp.c:106 | upload_file always ends with ftp_done(0). The other transfers end with ftp_done(1) exactly on full success. |
| FtpCommands.PathRequest | lib/libftp/src/ftp/cmd_ftp.c:285-315 | ls and rm accept exactly two words with a path of at most FTP_PATH_LENGTH characters. |
| FtpCommands.MkfsRequest | lib/libftp/src/ftp/cmd_ftp.c:317-341 | mkfs needs a path. Without a third word, force is false. |
| FtpCommands.MkfsForce | lib/libftp/src/ftp/cmd_ftp.c:325-332 | The third word parses exactly when it is one of 1/yes/true/0/no/false. force is true exactly for 1/yes/true. |
| FtpCommands.TwoPathRequest | lib/libftp/src/ftp/cmd_ftp.c:245-266 | mv, cp, zip and unzip need exactly three words, with both path lengths in [3, FTP_PATH_LENGTH]. |
| FtpCommands.ActionFor | lib/libftp/src/ftp/cmd_ftp.c:250-254 | The action is zip exactly when the command word is "zip", and unzip otherwise. |
| FtpCommands.OneShot | lib/libftp/src/ftp/cmd_ftp.c:343-379 | A syntax error exactly when the arguments are refused, and OK exactly when the client call succeeds. |
| FtpCommands.Shell.constructor | lib/libftp/src/ftp/cmd_ftp.c:30-33 | Defaults: host 1, port 9, chunk size 185, backend 3. |
| FtpCommands.Shell.SetBackend | lib/libftp/src/ftp/cmd_ftp.c:38-46 | Exactly one argument stores the backend as an unsigned int. Otherwise it is a syntax error. |
| FtpCommands.Shell.SetHostPort | lib/libftp/src/ftp/cmd_ftp.c:48-63 | The host is required. The port and chunk size change only when given. |
| FtpCommands.Shell.SetTimeout | lib/libftp/src/ftp/cmd_ftp.c:381-391 | Too many words is a syntax error. An argument sets the timeout. |
| FtpCommands.Shell.RunSession | lib/libftp/src/ftp/cmd_ftp.c:90-108 | The phases are recorded as the session, and the command succeeds exactly when every phase did. |
| FtpCommands.Shell.DownloadFile | lib/libftp/src/ftp/cmd_ftp.c:74-110 | argc must be 2..3 and the remote path at most FTP_PATH_LENGTH. The local path defaults to the base name. The phases are download, status reply, CRC, then ftp_done(1) on success or ftp_done(0) on failure. |
| FtpCommands.Shell.UploadFile | lib/libftp/src/ftp/cmd_ftp.c:113-149 | Exactly 3 words, a remote path in [3, FTP_PATH_LENGTH] and a local path of at least 3 characters. The phases are upload, status request, data, CRC, then ftp_done(0). |
| FtpCommands.Shell.DownloadMem | lib/libftp/src/ftp/cmd_ftp.c:151-191 | A memory download on backend 0 with no remote path. It ends with ftp_done(1) only on success. |
| FtpCommands.Shell.UploadMem | lib/libftp/src/ftp/cmd_ftp.c:193-231 | A memory upload on backend 0 with an empty remote path. It ends with ftp_done(1) only on success. |
| LogHost.Select | lib/liblog/src/host/log.c:48-50 | mask_set: under SET a level bit becomes that level and every level above it, within LOG_ALL_MASK; otherwise the bit itself. SetSelectsLevelsAtOrAbove states this. |
| Common.Tokens | lib/liblog/src/host/log.c:58-108 | The tokens strtok_r hands out: non-empty and free of separators. |
| LogHost.SetSelectsLevelsAtOrAbove | lib/liblog/src/host/log.c:48-50 | Under SET a level bit enables exactly that level and the ones above it, within LOG_ALL_MASK. Under OR or AND a bit stands for itself. |
| LogHost.FirstMatch | lib/liblog/src/host/log.c:76-97 | Finds the first keyword, in the order trace, debug, info, warning, error, standard, all, none, of which the token is a case-insensitive prefix. No earlier keyword matches. |
| LogHost.KeywordsHaveNoComma | lib/liblog/src/host/log.c:58 | No keyword contains the list separator. |
| LogHost.AbbreviationIsOneToken | lib/liblog/src/host/log.c:58-76 | A keyword abbreviation is a single token. |
| LogHost.ParseToken | lib/liblog/src/host/log.c:58-97 | A token fails exactly when it is empty after its sign or matches no keyword. A level keyword keeps its sign's operation, and its mask stays within LOG_ALL_MASK. |
| LogHost.StringToMask | lib/liblog/src/host/log.c:52-112 | The strtok_r loop computes the left-to-right application of the tokens to old. It gives -1 on the first bad token and returns old for an empty list. |
| LogHost.ApplyAllAppend | lib/liblog/src/host/log.c:58-111 | Applying a + b is applying a, then b. |
| LogHost.MaskListIsSequential | lib/liblog/src/host/log.c:58-111 | "x,y" means x and then y. |
| LogHost.AcceptanceIgnoresStart | lib/liblog/src/host/log.c:58-111 | Whether a list is accepted does not depend on the starting mask. |
| LogHost.SingleToken | lib/liblog/src/host/log.c:58-106 | A comma-free text is one token. |
| LogHost.Sign | lib/liblog/src/host/log.c:61-69 | The operation the token's sign selects. SignedAbbreviation states it. |
| LogHost.Apply | lib/liblog/src/host/log.c:99-106 | OR adds the token's mask, AND clears it, SET replaces the mask. LevelWordMeaning and GlobalWordMeaning state the results. |
| LogHost.ApplyAll | lib/liblog/src/host/log.c:58-111 | The tokens applied left to right, failing on the first bad one. ApplyAllAppend and AcceptanceIgnoresStart state its properties. |
| LogHost.MaskAfter | lib/liblog/src/host/log.c:52-112 | The value of log_string_to_mask: ApplyAll over the comma-separated tokens. StringToMask computes it. |
| LogHost.SignedAbbreviation | lib/liblog/src/host/log.c:61-69 | '+' asks for OR, '-' for AND-NOT, and no sign for SET. |
| LogHost.LevelWordMeaning | lib/liblog/src/host/log.c:60-106 | A bare level word sets that level and every level above it. "+w" adds only w, and "-w" removes only w. |
| LogHost.GlobalWordMeaning | lib/liblog/src/host/log.c:86-95 | "standard", "all" and "none" replace the mask with the default mask, all levels or 0, whatever the sign. |
| LogHost.BareSignRejected | lib/liblog/src/host/log.c:72-73 | A bare sign is an empty level and rejects the whole list. |
| LogHost.LastNamed | lib/liblog/src/host/log.c:34-42 | Returns the last group whose name is equal, or none. |
| LogHost.SetEvery | lib/liblog/src/host/log.c:216-225 | "all" sets the chosen mask of every group. |
| LogHost.SameNamesSameLookup | lib/liblog/src/host/log.c:34-42 | Lookup depends only on the names. |
| LogHost.MaskNamed | lib/liblog/src/host/log.c:200-211 | log_get_mask: the chosen mask of the last group with that name, or none. GetAfterSet relates it to Assigned. |
| LogHost.Assigned | lib/liblog/src/host/log.c:213-237 | log_set_mask: "all" sets every group, any other name its last match, and an unknown name changes nothing. GetAfterSet states its effect. |
| LogHost.GetAfterSet | lib/liblog/src/host/log.c:200-237 | After a set, the group reads back the new mask. Other groups, the other kind of mask and the names are unchanged. An unknown name changes nothing, and "all" sets every group. |
| LogHost.Residue | lib/liblog/src/host/log.c:144-165 | The mask text the next group of an entry sees: what strtok_r left readable as written, or the whole text with a copy per group. ResidueStable and ResidueAccepted state its properties. |
| LogHost.GroupStep | lib/liblog/src/host/log.c:147-165 | One group of an entry: its current print mask, or 0 for "all", edited by the mask text. KnownGroupStep states its effect. |
| LogHost.ApplyGroups | lib/liblog/src/host/log.c:144-169 | The groups of an entry in order, abandoning the rest at an unknown group or a bad mask. GroupListEffect states its effect. |
| LogHost.ApplyEntry | lib/liblog/src/host/log.c:130-172 | One "groups=masks" entry. An entry without '=' is skipped. |
| LogHost.ApplyEntries | lib/liblog/src/host/log.c:130-173 | The entries applied in order. |
| LogHost.Entries | lib/liblog/src/host/log.c:124-130 | The ';'-separated entries of the first 100 characters. |
| LogHost.Configured | lib/liblog/src/host/log.c:116-178 | The groups after log_set_from_string. ConfiguredKeepsShape and the examples state its properties. |
| LogHost.GroupsKeepShape | lib/liblog/src/host/log.c:144-169 | Applying an entry's groups changes only print masks. The number of groups, their names and their store masks stay. |
| LogHost.EntriesKeepShape | lib/liblog/src/host/log.c:130-173 | Applying entries changes only print masks. |
| LogHost.ConfiguredKeepsShape | lib/liblog/src/host/log.c:116-178 | log_set_from_string changes only print masks. Names, store masks and the number of groups stay. |
| LogHost.ResidueStable | lib/liblog/src/host/log.c:144-165 | The text seen by later groups does not change on further reading. |
| LogHost.FirstTokenAccepted | lib/liblog/src/host/log.c:58-111 | The first token of an accepted list is accepted alone. |
| LogHost.ResidueAccepted | lib/liblog/src/host/log.c:144-165 | An accepted mask text leaves an accepted residue for the next group. |
| LogHost.GroupListEffect | lib/liblog/src/host/log.c:144-169 | For known distinct groups, the first group gets the whole text applied to its own mask, later groups get the residue, and other groups are unchanged. |
| LogHost.KnownGroupStep | lib/liblog/src/host/log.c:147-165 | One known group gets the text applied to its own print mask, and nothing else changes. |
| LogHost.AsWrittenLaterGroupsSeeFirstToken | lib/liblog/src/host/log.c:144-165 | As written, every group after the first is edited by the first mask token only. |
| LogHost.ExampleEntry | lib/liblog/src/host/log.c:130-172 | "a,b=+e,-t" is one entry, with groups a and b and mask text "+e,-t". |
| LogHost.InPlaceTokenisingExample | lib/liblog/src/host/log.c:144-165 | As written, "a,b=+e,-t" drops trace for group a but not for group b. |
| LogHost.CopyingExample | lib/liblog/src/host/log.c:144-165 | With a fresh copy of the mask text, both groups drop trace. |
| LogHost.CorrectedEveryGroupSeesWholeList | lib/liblog/src/host/log.c:144-169 | With a copy per group, every listed group gets the whole list applied to its own mask. Other groups are unchanged. |
| LogHost.EventGroup | lib/liblog/src/host/log.c:311-312 | The group an event is judged by: its own, or LOG_DEFAULT when none is given. |
| LogHost.Event | lib/liblog/src/host/log.c:309-325 | An event is dropped (-1) exactly when neither the print mask nor the store mask of its group has the level's bit. A logged event is printed exactly when the print mask has the bit, and stored exactly when the store mask has it. A missing group means LOG_DEFAULT. |
| LogHost.EventFollowsSelection | lib/liblog/src/host/log.c:309-325 | After a group's print or store mask is set to level l, that channel handles the group's events exactly when their level is at or above l. After mask 0 it handles none of them. Whatever the new mask, the other channel is unchanged. |
| LogHost.EventDefaultsToDefaultGroup | lib/liblog/src/host/log.c:311-312 | An event without a group has the same outcome as one of LOG_DEFAULT. |
| LogHost.Log.LogEvent | lib/liblog/src/host/log.c:309-325 | The decision on the registry's current groups is Event's. |
| LogHost.Log.FindGroup | lib/liblog/src/host/log.c:34-42 | The scan returns the last exact match. |
| LogHost.Log.GetMask | lib/liblog/src/host/log.c:200-211 | Returns the print or store mask of the named group, or -1 for an unknown name. |
| LogHost.Log.SetMask | lib/liblog/src/host/log.c:213-237 | The new registry is the specified assignment; its properties are in GetAfterSet. |
| LogHost.Log.SetGroup | lib/liblog/src/host/log.c:144-169 | An unknown group or a bad mask abandons the entry with nothing changed. "all" starts from 0. |
| LogHost.Log.SetEntry | lib/liblog/src/host/log.c:130-172 | An entry without '=' is skipped. Otherwise its groups are applied in order. |
| LogHost.Log.SetGroups | lib/liblog/src/host/log.c:144-169 | The group loop applies the groups left to right until one fails. |
| LogHost.Log.SetFromString | lib/liblog/src/host/log.c:116-178 | The entries are configured as written, with the mask text tokenised in place. |
| LogHost.Log.SetFromStringCopying | lib/liblog/src/host/log.c:116-178 | The entries are configured with a fresh mask text for each group. |
| LogHost.Log.SetEntries | lib/liblog/src/host/log.c:124-172 | The entry loop applies the ';'-separated entries of the 100-character copy in order. |
| RemoteLog.LetterLevel | lib/liblog/src/client/cmd_rlog.c:420-427 | Exactly e, w, i, d and t name a level, by its initial. |
| RemoteLog.LetterMask | lib/liblog/src/client/cmd_rlog.c:136-159 | Only the first character counts. It gives -1 exactly when that character is not one of t, d, i, w, e, s, a, n. |
| RemoteLog.LetterMaskAgreesWithHost | lib/liblog/src/client/cmd_rlog.c:136-159 | A level letter enables that level and every level above it, as the host's SET of that keyword does. |
| RemoteLog.IndexOf | lib/liblog/src/client/cmd_rlog.c:126-134 | The first index holding the name, or none when no entry is equal. |
| RemoteLog.GroupIndexOf | lib/liblog/src/client/cmd_rlog.c:126-134 | Returns the first index below rlog_no_groups whose name is equal, or -1. |
| RemoteLog.Stored | lib/liblog/src/client/cmd_rlog.c:113-115 | The name table keeps its length. |
| RemoteLog.Enabled | lib/liblog/src/client/cmd_rlog.c:116 | The group mask with the bit of every listed slot set. EnabledSlots states it. |
| RemoteLog.EnabledSlots | lib/liblog/src/client/cmd_rlog.c:116 | The group mask has exactly the listed slots set. |
| RemoteLog.StoredSlot | lib/liblog/src/client/cmd_rlog.c:113-115 | A slot holds the last name listed for it, cut to 15 characters, or its old name. |
| RemoteLog.StoredNamesShort | lib/liblog/src/client/cmd_rlog.c:113-115 | No stored name exceeds 15 characters. |
| RemoteLog.Split | lib/liblog/src/client/cmd_rlog.c:412-416 | A token disables exactly when it starts with '-'. |
| RemoteLog.LevelEdit | lib/liblog/src/client/cmd_rlog.c:407-446 | The level query mask after one token. LevelEditEffect and LevelEditIdempotent state its effect. |
| RemoteLog.LevelEdits | lib/liblog/src/client/cmd_rlog.c:407-446 | The tokens applied left to right. LevelEditsStayInLevels and LevelEditsAppend state its properties. |
| RemoteLog.LevelEditEffect | lib/liblog/src/client/cmd_rlog.c:407-446 | A level token sets ('+' or bare) or clears ('-') only its bit. A bare sign sets all five levels or none. An unknown letter changes nothing. |
| RemoteLog.LevelEditIdempotent | lib/liblog/src/client/cmd_rlog.c:407-446 | Repeating a level token changes nothing more. |
| RemoteLog.LevelEditsStayInLevels | lib/liblog/src/client/cmd_rlog.c:407-446 | Level edits never set a bit outside 0x1F. |
| RemoteLog.LevelEditsAppend | lib/liblog/src/client/cmd_rlog.c:407-446 | A list of tokens is applied token by token. |
| RemoteLog.AllGroups | lib/liblog/src/client/cmd_rlog.c:469 | The mask of all groups holds exactly the first rlog_no_groups groups. |
| RemoteLog.AllGroupsAsWritten | lib/liblog/src/client/cmd_rlog.c:469 | (1<<n)-1 with the shift count taken modulo 32. The next two lemmas compare it with AllGroups. |
| RemoteLog.AllGroupsAsWrittenBelowFull | lib/liblog/src/client/cmd_rlog.c:469 | Below 32 groups, (1<<n)-1 is that mask. |
| RemoteLog.AllGroupsAsWrittenWithFullTable | lib/liblog/src/client/cmd_rlog.c:469 | With 32 groups, (1<<32)-1, with its shift count taken modulo 32, enables none of them. |
| RemoteLog.GroupEdit | lib/liblog/src/client/cmd_rlog.c:447-477 | The group query mask after one token, over the listed names. GroupEditEffect states its effect. |
| RemoteLog.GroupEdits | lib/liblog/src/client/cmd_rlog.c:447-477 | The tokens applied left to right. GroupEditsStayInTable states its bound. |
| RemoteLog.GroupEditEffect | lib/liblog/src/client/cmd_rlog.c:447-477 | A known group token sets or clears only that group's bit. A bare sign sets every listed group or none. An unknown name changes nothing. |
| RemoteLog.GroupEditsStayInTable | lib/liblog/src/client/cmd_rlog.c:447-477 | Group edits keep the mask within the listed groups. |
| RemoteLog.NanosText | lib/liblog/src/client/cmd_rlog.c:253-258 | The nanosecond text is at most 9 characters of the input, right-padded with '0' to exactly 9. |
| RemoteLog.TimeFilter | lib/liblog/src/client/cmd_rlog.c:246-275 | The filter's nanoseconds are below NSEC_SEC unless it is the latest timestamp. |
| RemoteLog.TimeFilterLatest | lib/liblog/src/client/cmd_rlog.c:264-267 | "-1" asks for the newest timestamp seen. |
| RemoteLog.TimeFilterExact | lib/liblog/src/client/cmd_rlog.c:248-262 | Seconds and nanoseconds in range are sent as given. |
| RemoteLog.LatestAfter | lib/liblog/src/client/cmd_rlog.c:312-373 | The newest timestamp after the replies, each reply with entries giving its first, up to the final one. LatestAfterComesFromReply and LatestAfterStopsAtFinal state its properties. |
| RemoteLog.LatestAfterComesFromReply | lib/liblog/src/client/cmd_rlog.c:334-338 | The newest timestamp is the old one or the first entry of a reply that was read. |
| RemoteLog.LatestAfterStopsAtFinal | lib/liblog/src/client/cmd_rlog.c:368-372 | Nothing after the final reply is read. |
| RemoteLog.RemoteLogClient.constructor | lib/liblog/src/client/cmd_rlog.c:20-30 | Initially there is no node, the default port, an empty table and empty masks. |
| RemoteLog.RemoteLogClient.GroupIndex | lib/liblog/src/client/cmd_rlog.c:126-134 | The loop returns the first exact match. |
| RemoteLog.RemoteLogClient.List | lib/liblog/src/client/cmd_rlog.c:32-124 | The node must be 0..31 and the port 0..63. The node and port stay stored even when rejected. On a reply, at most 32 groups are kept, the level mask resets to 0x1F, names are stored cut to 15 characters, their bits are set, and the latest time is now. A failure leaves the table alone. |
| RemoteLog.RemoteLogClient.FillTable | lib/liblog/src/client/cmd_rlog.c:95-117 | The loop stores the names and enables the listed groups. Names stay within 15 characters. |
| RemoteLog.RemoteLogClient.SetMask | lib/liblog/src/client/cmd_rlog.c:161-223 | It fails without a listed node. Unknown groups or levels are syntax errors. A request naming one group with the level's mask is sent exactly when both resolve, and succeeds exactly when answered. |
| RemoteLog.RemoteLogClient.PadNanos | lib/liblog/src/client/cmd_rlog.c:253-258 | The padding loop produces the 9-digit nanosecond text. |
| RemoteLog.RemoteLogClient.ParseTime | lib/liblog/src/client/cmd_rlog.c:246-275 | The parse computes the time filter. |
| RemoteLog.RemoteLogClient.HistRequest | lib/liblog/src/client/cmd_rlog.c:225-310 | A leading '-' counts packets instead of lines and gives a time filter instead of a line offset. The counts are cut to 16 bits, and the query masks are carried. |
| RemoteLog.RemoteLogClient.FollowHistory | lib/liblog/src/client/cmd_rlog.c:312-373 | The reply loop keeps the first timestamp of each reply, up to the final one. |
| RemoteLog.RemoteLogClient.Hist | lib/liblog/src/client/cmd_rlog.c:225-377 | Once the request is out the command succeeds. The latest timestamp follows the replies. |
| RemoteLog.RemoteLogClient.Query | lib/liblog/src/client/cmd_rlog.c:403-486 | OK exactly for no arguments, or for "level"/"group" with tokens. Only the named mask changes, by the token edits. |
| RemoteLog.RemoteLogClient.QueryLevels | lib/liblog/src/client/cmd_rlog.c:407-446 | The token loop applies the level edits and keeps the mask within 0x1F. |
| RemoteLog.RemoteLogClient.QueryGroups | lib/liblog/src/client/cmd_rlog.c:447-477 | The token loop applies the group edits. |
| ParamTable.FirstNamed | lib/libparam/src/param_string.c:19-28 | The first entry from i on whose name compares equal, or none. |
| ParamTable.FindName | lib/libparam/src/param_string.c:19-28 | No table finds nothing. Otherwise it finds the first entry whose name compares equal, and none if no entry does. |
| ParamTable.LookupName | lib/libparam/src/param_string.c:19-28 | The loop finds that entry. |
| ParamTable.Slots | lib/libparam/src/param_string.c:36-38 | A scalar (count 0) has one element. Otherwise it has count elements. |
| ParamTable.SlotAddr | lib/libparam/src/param_string.c:41 | The address of element j: addr + j*size. |
| ParamTable.Covers | lib/libparam/src/param_string.c:30-46 | Some element of the entry, counting a scalar as one, lives at the address. CoversWithinSpan and ScalarCoversOnlyItself state what it means. |
| ParamTable.FirstCovering | lib/libparam/src/param_string.c:30-46 | The first entry from i on with an element at addr. |
| ParamTable.FindAddr | lib/libparam/src/param_string.c:30-46 | The first entry i with some j < max(count, 1) and addr_i + j*size_i == addr, or none. |
| ParamTable.LookupAddr | lib/libparam/src/param_string.c:30-46 | The two loops find that entry. |
| ParamTable.CoversWithinSpan | lib/libparam/src/param_string.c:30-46 | An element of an entry lies within the entry's span. |
| ParamTable.ScalarCoversOnlyItself | lib/libparam/src/param_string.c:36-41 | A scalar, or an entry of size 0, owns only its own address. |
| ParamTable.TypeName | lib/libparam/src/param_string.c:191-212 | Every known type has a name. |
| ParamTable.TypeNameAsWrittenSplitsWidth64 | lib/libparam/src/param_string.c:197 | X8, X16 and X32 share their unsigned twin's name, but X64 ("uint64_t") and UINT64 ("uint65_t") do not. |
| ParamTable.TypeNameCorrected | lib/libparam/src/param_string.c:191-212 | Every known type has a name. |
| ParamTable.TypeNameCorrectedSharesStorage | lib/libparam/src/param_string.c:191-212 | Corrected, every hex type shares its unsigned twin's name. |
| ParamTable.ParseBool | lib/libparam/src/param_string.c:214-225 | yes/true/1 gives 1, no/false/0 gives 0, and nothing else parses. |
| ParamTable.BoolText | lib/libparam/src/param_string.c:52-56 | "true" for a non-zero byte, "false" for 0. BoolRoundTrip shows ParseBool reads it back. |
| ParamTable.BoolRoundTrip | lib/libparam/src/param_string.c:52-56 | A printed BOOL parses back to its truth value. |
| ParamTable.HexValue | lib/libparam/src/param_string.c:347-352 | A hex digit's value, or (unsigned) -1. |
| ParamTable.DataBytes | lib/libparam/src/param_string.c:342-358 | size bytes: pair i decoded as 16*hi + lo for i < strlen/2, and zero after that. |
| ParamTable.CopiedBytes | lib/libparam/src/param_string.c:337-340 | Exactly PARAM_SIZE bytes: the text, then NUL. |
| ParamTable.HexByte | lib/libparam/src/param_string.c:176-181 | "%02X" prints two characters. |
| ParamTable.HexText | lib/libparam/src/param_string.c:176-181 | A DATA value prints as two characters per byte. |
| ParamTable.PairOfHexByte | lib/libparam/src/param_string.c:176-181 | A byte's two hex digits decode back to it. |
| ParamTable.DataRoundTrip | lib/libparam/src/param_string.c:342-358 | Parsing a printed DATA value gives back the bytes. |
| ParamTable.DataShortTextZeroFills | lib/libparam/src/param_string.c:344-355 | Bytes past the text stay zero. |
| Common.Hex | lib/libparam/src/param_string.c:118-152 | The %X text of a number: upper-case hexadecimal digits that read back as the number. |
| Common.HexPadded | lib/libparam/src/param_string.c:118-152 | The %0wX text: at least w upper-case hexadecimal digits that read back as the number. |
| ParamTable.Tag | lib/libparam/src/param_string.c:57-155 | With with_type 1, a known type's tag is 4 characters ending in a space. |
| ParamTable.ValuePieces | lib/libparam/src/param_string.c:48-189 | DATA prints one piece per byte, and other known types print one piece. |
| ParamTable.Rendered | lib/libparam/src/param_string.c:48-189 | The whole text param_to_string means to produce: the tag when asked for, then the value pieces. RenderedShape and RenderedSize state its form and length. |
| ParamTable.RenderedShape | lib/libparam/src/param_string.c:57-155 | The rendering starts with the tag. Hex types print "0x" and zero-padded digits, or decimal when with_type is 2. |
| ParamTable.SnprintfReach | lib/libparam/src/param_string.c:176-181 | How far one snprintf reaches, terminator included. A negative bound becomes a huge size_t and does not stop the write. |
| ParamTable.ReachAsWritten | lib/libparam/src/param_string.c:176-181 | The furthest byte the pieces reach as written, with each bound max_size minus the full length of the earlier pieces. ReachAsWrittenOverruns states its overrun. |
| ParamTable.ReachBounded | lib/libparam/src/param_string.c:176-181 | The same writes with each bound clamped at 0. ReachBoundedWithinBuffer states its bound. |
| ParamTable.ReachBoundedWithinBuffer | lib/libparam/src/param_string.c:176-181 | With each bound clamped at 0, nothing is written past max_size. |
| ParamTable.ReachAsWrittenOverruns | lib/libparam/src/param_string.c:176-181 | As written, a piece that starts past the end is written whole past the end. |
| ParamTable.DataListingOverrun | lib/libparam/src/param_string.c:384-386 | A tagged DATA value of 50 bytes or more, listed into the 100-byte buffer, is written past it. Clamped, it is not. |
| ParamTable.RenderedSize | lib/libparam/src/param_string.c:48-189 | The running size is the length of the whole rendering. |
| ParamTable.FromString | lib/libparam/src/param_string.c:227-369 | BOOL writes one byte or fails, leaving the buffer alone. STRING copies PARAM_SIZE bytes. DATA zero-fills and decodes. An unknown type is -1 with the buffer untouched. |
| ParamTable.DecodeData | lib/libparam/src/param_string.c:342-358 | The memset and the pair loop leave DataBytes in the first size bytes and nothing else. |
| RemoteParam.ElementAddr | lib/libparam/src/rparam_client.c:214-231 | The 16-bit query address of element i: addr + size*i, modulo 2^16. |
| RemoteParam.ElementAddrs | lib/libparam/src/rparam_client.c:218-237 | Element k's address is addr + size*(from+k), cut to 16 bits. |
| RemoteParam.Room | lib/libparam/src/rparam_client.c:218-237 | At most the wanted number of appends fit. |
| RemoteParam.RoomWithinBudget | lib/libparam/src/rparam_client.c:218-237 | The appends that fit never exceed RPARAM_QUERY_MAX_LEN. |
| RemoteParam.RoomIsMaximal | lib/libparam/src/rparam_client.c:218-237 | When not all fit, one more would overspend. |
| RemoteParam.SplitIndex | lib/libparam/src/rparam_client.c:192-194 | The name is cut at the first '['. Without a '[' the index is -1. |
| RemoteParam.Query.constructor | lib/libparam/src/rparam_client.c:30-32 | The buffer starts as an empty GET. |
| RemoteParam.Query.Reset | lib/libparam/src/rparam_client.c:40-44 | The query becomes an empty GET with budget 0. |
| RemoteParam.Query.IsSet | lib/libparam/src/rparam_client.c:36-38 | Reports the length, which is non-zero exactly when something is listed. |
| RemoteParam.GetListing | lib/libparam/src/rparam_client.c:192-237 | An unknown name is INVALID and an index at or past the count fails. Addresses are only ever appended, the reply size stays within RPARAM_QUERY_MAX_LEN, and success appends at least one address. |
| RemoteParam.Query.QueryGet | lib/libparam/src/rparam_client.c:180-247 | No table is a failure with nothing changed. Otherwise, after a non-GET query is reset, the result, the addresses and the reply size are those GetListing gives for the name. |
| RemoteParam.Query.AppendAll | lib/libparam/src/rparam_client.c:218-237 | The loop appends exactly the elements that fit, in order. |
| RemoteParam.IndexingScalarFails | lib/libparam/src/rparam_client.c:192-205 | Given any starting query, an explicit index on a scalar entry (count 0) fails and leaves the query's addresses and reply size as they were. |
| RemoteParam.Command | lib/libparam/src/rparam_client.c:98-178 | Only COPY, SAVE, LOAD and CLEAR are sent. It returns 1 exactly when the reply byte is the matching OK code. |
| RemoteParam.CommandWrappers | lib/libparam/src/rparam_client.c:85-96 | clear sends CLEAR with the id, and copy sends COPY from/to. |
| RemoteParam.Swap | lib/libparam/src/rparam_client.c:510-514 | The two bytes of the address are exchanged. |
| RemoteParam.SwapInvolution | lib/libparam/src/rparam_client.c:510-514 | Swapping twice restores the address. |
| RemoteParam.SwapAll | lib/libparam/src/rparam_client.c:510-514 | Every entry's address is swapped. |
| RemoteParam.SwapAllExchangesSums | lib/libparam/src/rparam_client.c:503-514 | Swapping exchanges the high-byte and low-byte sums. |
| RemoteParam.SwapAllInvolution | lib/libparam/src/rparam_client.c:510-514 | Swapping the table twice restores it. |
| RemoteParam.EndianFixed | lib/libparam/src/rparam_client.c:495-514 | The table after autodetection: all addresses swapped exactly when the high byte sum exceeds the low one. EndianFixIdempotent and EndianFixKeepsEntries state its properties. |
| RemoteParam.EndianFixIdempotent | lib/libparam/src/rparam_client.c:503-514 | Autodetection run twice equals running it once. Afterwards the high sum never exceeds the low sum. |
| RemoteParam.EndianFixKeepsEntries | lib/libparam/src/rparam_client.c:503-514 | Only addresses change. |
| RemoteParam.FixEndian | lib/libparam/src/rparam_client.c:495-514 | The first count (uint8_t) entries are swapped in place exactly when the high sum exceeds the low sum. The rest are untouched. |
| RemoteParam.AddressSums | lib/libparam/src/rparam_client.c:503-507 | The loop computes both byte sums. |
| RemoteParam.GetSingle | lib/libparam/src/rparam_client.c:615-631 | A reply is accepted exactly when its length is 2+size and its echoed address matches. It then yields param_betoh applied to the bytes after the address. |
| RemoteParam.GetSingleAcceptsServerReply | lib/libparam/src/rparam_client.c:615-631 | A well-formed reply, whose value was converted to big-endian by a conversion that param_betoh undoes, yields the original value. |
| RemoteParam.GetSingleRejectsOtherAddress | lib/libparam/src/rparam_client.c:621-625 | A reply for another address is rejected. |
| RemoteParam.QueryGetValue | lib/libparam/src/rparam_client.c:669-684 | -1 exactly for an unknown name, -2 for a short buffer, -3 for a failed read. Otherwise 0 with the entry's size bytes. |
| RemoteParam.QueryGetValueChecksSizeFirst | lib/libparam/src/rparam_client.c:675-680 | A short buffer gives -2 even where the read would fail. |
| GetOpt.Step | lib/libgosh/src/gosh/getopt.c:24-70 | EOF happens only at the start of a word: the cursor stays put, or moves past "--". Every other return strictly advances the cursor and keeps optsp >= 1, and optopt is the character read. |
| GetOpt.StopsAtNonOption | lib/libgosh/src/gosh/getopt.c:29-33 | At the end of argv, on a word not led by '-', or on "-", it returns EOF without moving. |
| GetOpt.DoubleDashEnds | lib/libgosh/src/gosh/getopt.c:34-37 | "--" is consumed and gives EOF. |
| GetOpt.UnknownOption | lib/libgosh/src/gosh/getopt.c:40-48 | ':' or a character not in opts gives '?' and steps past that character. |
| GetOpt.OptionWithArgument | lib/libgosh/src/gosh/getopt.c:50-60 | The argument is the rest of the word, else the next word. Missing at the end of argv, it gives '?' with optind past the end. optsp ends at 1. |
| GetOpt.FlagOption | lib/libgosh/src/gosh/getopt.c:61-67 | A flag clears optarg and steps within a grouped word, or to the next word. |
| GetOpt.StepShrinksRemaining | lib/libgosh/src/gosh/getopt.c:40-69 | Every non-EOF call shrinks a lexicographic measure, so option loops terminate. |
| GetOpt.Context.Next | lib/libgosh/src/gosh/getopt.c:24-70 | Each call returns, and moves the cursor as, Step says. |
| GetOpt.Context.All | lib/libgosh/src/gosh/getopt.c:24-70 | Calling until EOF terminates with optsp = 1. |
| NanoCam.FormatName | clients/nanocam2/cmd_nanocam.c:34-50 | The name is "unknown" exactly for codes other than the five formats. |
| NanoCam.ParseFormat | clients/nanocam2/cmd_nanocam.c:52-67 | Each of the five format names matches case-insensitively. Anything else goes through atoi, cut to uint8_t. |
| NanoCam.FormatRoundTrip | clients/nanocam2/cmd_nanocam.c:34-67 | The name of each known format parses back to that format. |
| NanoCam.EqualIgnoreCaseVia | clients/nanocam2/cmd_nanocam.c:54-63 | Two texts that match case-insensitively match the same third text. |
| NanoCam.ParseFormatIgnoresCase | clients/nanocam2/cmd_nanocam.c:54-63 | Any text equal to one of the five format names up to case parses to that format. |
| NanoCam.Settings.constructor | clients/nanocam2/cmd_nanocam.c:29-32 | JPG and 5000 ms. |
| NanoCam.Settings.SetFormat | clients/nanocam2/cmd_nanocam.c:97-111 | With an argument it stores the parsed format. |
| NanoCam.Settings.SetTimeout | clients/nanocam2/cmd_nanocam.c:82-95 | A scan that fails is a syntax error. Otherwise the timeout is stored. |
| NanoCam.BinColor | clients/nanocam2/cmd_nanocam.c:113-133 | The colour is NONE exactly when no channel is lit. |
| NanoCam.BinColorMixesChannels | clients/nanocam2/cmd_nanocam.c:113-133 | The colour mixes exactly the lit channels: all three give WHITE, pairs give YELLOW/MAGENTA/CYAN, and singles give their own colour. |
| NanoCam.BinColorOfChannels | clients/nanocam2/cmd_nanocam.c:113-133 | Every colour but black is reached. |
| NanoCam.Peak | clients/nanocam2/cmd_nanocam.c:250-255 | The peak bounds every count and is one of them, or 0. |
| NanoCam.BinMax | clients/nanocam2/cmd_nanocam.c:250-255 | The loops compute the peak over all colours and bins. |
| NanoCam.PeakIsUnique | clients/nanocam2/cmd_nanocam.c:250-255 | The peak is the only such bound. |
| NanoCam.BlocksAsWritten | clients/nanocam2/cmd_nanocam.c:268-270 | The bar length as written: ceil(h*HIST_WIDTH/bin_max), and a division by zero (none) when bin_max is 0. |
| NanoCam.Blocks | clients/nanocam2/cmd_nanocam.c:268-270 | The bar length with empty bars for an empty histogram. BlocksScale states its bounds. |
| NanoCam.DarkHistogramDividesByZero | clients/nanocam2/cmd_nanocam.c:268-270 | An all-zero histogram leaves bin_max 0, and the block computation divides by it. |
| NanoCam.BlocksScale | clients/nanocam2/cmd_nanocam.c:268-270 | For bin_max > 0, blocks = ceil(h*HIST_WIDTH/bin_max), which is at most HIST_WIDTH. It is full at the peak and 0 only for an empty bin. |
| NanoCam.BlocksOfEmptyHistogram | clients/nanocam2/cmd_nanocam.c:268-270 | Corrected, an empty histogram draws empty bars. |
| NanoCam.DrawBar | clients/nanocam2/cmd_nanocam.c:273-281 | Each of the HIST_WIDTH cells is blank, or the colour mixing the shown channels whose bars reach it. |
| NanoCam.RecoverTimeout | clients/nanocam2/cmd_nanocam.c:431-434 | The timeout is at least 120000, and kept when it is larger (as an int). |
| NanoCam.RecoverFs | clients/nanocam2/cmd_nanocam.c:425-443 | It succeeds exactly when the camera call returns >= 0. |
| NanoCam.Answer | clients/nanocam2/cmd_nanocam.c:472-492 | A request is answered exactly when the camera replies. |
| NanoCam.PeekPlan | clients/nanocam2/cmd_nanocam.c:472-492 | Each request is between 1 and CSP_CMP_PEEK_MAX_LEN bytes. |
| NanoCam.PeekPlanCovers | clients/nanocam2/cmd_nanocam.c:472-492 | The requests total len, and all but the last are full-sized. |
| NanoCam.Dumped | clients/nanocam2/cmd_nanocam.c:472-492 | The bytes dumped for a plan's requests and whether all succeeded, stopping at the first failure. |
| NanoCam.DumpFrom | clients/nanocam2/cmd_nanocam.c:472-492 | The same dump one chunk at a time, as the loop requests it. DumpFromFollowsPlan equates the two. |
| NanoCam.DumpFromFollowsPlan | clients/nanocam2/cmd_nanocam.c:472-492 | Chunk-by-chunk requests dump exactly what the plan describes. |
| NanoCam.CompleteDumpLength | clients/nanocam2/cmd_nanocam.c:472-492 | A fully successful dump writes exactly len bytes. |
| NanoCam.Peek | clients/nanocam2/cmd_nanocam.c:445-501 | Bad arguments are a syntax error, and a file that cannot be opened fails. Otherwise the file holds the dump, and the command succeeds exactly when every request did. |
| NanoCam.Dump | clients/nanocam2/cmd_nanocam.c:472-492 | The loop writes the dump until the first failed request. |

## Left out

- CSP transport is left out. Connections, transactions, sends, reads and timeouts become inputs: an optional reply, a flag saying whether a send was delivered, or a sequence of incoming packets whose end stands for a timeout.
- Local files are an in-memory map from path to contents. Creation of the data file and of the map by fopen can fail and is modelled. Not modelled: a failure of fopen("r+") on a file that exists, failures of fseek, fread and fwrite on files already open, and fflush/fsync durability. Only the write-then-mark order is kept.
- Floating point and output are left out: the progress bar, speed and ETA, percentages, the FLOAT/DOUBLE paths of param_to_string/param_from_string, printf output and terminal colours.
- These foreign functions become function parameters:
  - chksum_crc32_step
  - param_strncmp
  - atoi
  - the "%d"/"%u"/"%x" conversions of sscanf
  - param_read_addr
  - param_betoh, for the type of the entry read
- These constants are parameters, because their headers are not part of this model: FTP_PATH_LENGTH, FTP_STATUS_CHUNKS, RPARAM_QUERY_MAX_LEN, CSP_CMP_PEEK_MAX_LEN and LOG_DEFAULT_MASK. The level bit order (trace lowest, error highest) follows from cmd_rlog.c:136-159 and log.c:48-50.
- The move, copy, remove, mkfs, list and zip client calls (ftp_client.c:721-916) are single request/reply exchanges. They are modelled only as the request their command builds (FtpCommands.OneShot). The handlers for download_run, crc and done are not modelled separately.
- FtpClient.Client.StatusReply: requires ftp_chunks to match the current chunk size. After a refused download ftp_chunk_size is changed while ftp_chunks is stale, but the commands never reach the status reply then.
- FtpClient.Client.StatusReplyReportingRuns: same precondition as StatusReply.
- FtpClient.MapName: the path is assumed to fit. sprintf into the 100-byte map buffer (ftp_client.c:260, 275) overflows for a path of 96 characters or more, and that overflow is not modelled.
- FtpClient.Client.StatusRequestOp: the reply's entry count is stored as given. The C code copies that many entries into last_status without checking it against FTP_STATUS_CHUNKS (ftp_client.c:350-355), which a bad reply would overflow.
- FtpClient.Client.ClearMap: a failed fwrite of a '-' byte, on which ftp_download closes both files and returns -1 (ftp_client.c:300-307), is not modelled.
- FtpClient.ChunkMessage: the payload is the chunk's bytes, zero-filled past the end of the file. The C code sends the whole packet buffer, so after a short read the tail holds stale bytes from an earlier chunk (ftp_client.c:622-636).
- FtpClient.Client.SendData: models ftp_data as written, including the sends after csp_close. SendDataClosingOnFailure is the corrected behaviour (see Findings).
- FtpTransfer.Receive: the payload of a data packet is cut or zero-filled to the chunk's length. The C code writes the chunk's length from the packet buffer whatever the packet's real length (ftp_client.c:557), so a short packet writes bytes past its data.
- RemoteParam.SplitIndex: splits the name as sscanf("%[^[][%d]") means to. The C buffer shortname has strlen(name) bytes, one short of the terminator for a name without '[' (rparam_client.c:192). For an empty name or one starting with '[', shortname is left uninitialised. Both are not modelled.
- LogHost.Log.SetFromString: the strndup allocation failure is not modelled.
- log_event_group_args is left out, because it is printf formatting and clock reads. Event stands for its print/store decision.
- RemoteLog.RemoteLogClient.List: group entries are given as (index, name). The byte offsets of the reply layout are not modelled. A group index of 32 or more, which the C code would write out of bounds, is excluded by the precondition.
- RemoteLog.NanosText: assumes the 10-byte buffer is NUL-terminated after strncpy of 9 or more characters. The C array is not initialised there.
- Printing of rlog query masks and the lost-line report of `rlog hist` are left out.
- ParamTable.FromString: the numeric paths go through sscanf, which is not part of this model. They are only stated to return 0. The STRING path's read past the end of a shorter text is modelled as NUL bytes.
- param_list_single's name buffer and its printing are left out. Only the size of the value rendering into the 100-byte buffer is modelled.
- These rparam operations are not modelled, because they are network exchanges, printing or file I/O:
  - rparam_query_set and rparam_query_send
  - the print functions
  - loading a specification from a file
  - rparam_get_full_table and rparam_set_single
  - the SFP download, fletcher16 and the file write of the table download
- GetOpt.Context.All: states only that the loop ends at EOF with optsp back at 1. What each call returns is stated by Next and Step. Words are assumed to be C strings, and the error messages are left out.
- NanoCam.Peek: a zero length leaves the C result variable uninitialised; the model treats it as success. A reply's data is fitted to the requested length.
- cmd_cam_snap is left out except for bin_max, the bar length and the colours: its option parsing and transfer are left out. So are the store, read, write, list, flush, focus and node commands.
- The static ftp_size of cmd_ftp.c is not modelled.

## Findings

| source | as written | input that shows it | evidently intended | confidence | as-written member | corrected member |
|---|---|---|---|---|---|---|
| lib/libftp/src/ftp/ftp_client.c:480-492 | The run counter `count` is never reset after an entry is emitted, so every later received chunk re-emits an entry from the first missing chunk. | The map "-+-+" with 4 chunks is reported as (0,1), (0,2). | Report the maximal runs of missing chunks: (0,1), (2,1). | not executed | FtpStatus.OverlappingEntriesAsWritten, FtpClient.Client.StatusReply | FtpStatus.CorrectedReportsRuns, FtpClient.Client.StatusReplyReportingRuns |
| lib/libftp/src/ftp/ftp_client.c:664-666 | ftp_done(1) removes snprintf(FTP_PATH_LENGTH, "%s.map", ftp_file_name). ftp_download created sprintf("%s.map", path) at line 275. | A local path with more than FTP_PATH_LENGTH-5 characters: the truncated name differs, and the map stays behind after a completed download. | Remove the map that was opened. | not executed | FtpClient.DoneRemovesCreatedMapIff, FtpClient.Client.Done | FtpClient.Client.DoneRemovingOpenedMap |
| lib/liblog/src/host/log.c:144-165 | log_string_to_mask tokenises the mask text in place with strtok_r (line 58). So every group after the first in an entry sees only the first token. | "a,b=+e,-t" on groups a and b at mask 0x1F: a becomes 0x1E but b stays 0x1F. | Every group of the entry gets the whole mask list. | not executed | LogHost.AsWrittenLaterGroupsSeeFirstToken, LogHost.InPlaceTokenisingExample, LogHost.Log.SetFromString | LogHost.CorrectedEveryGroupSeesWholeList, LogHost.CopyingExample, LogHost.Log.SetFromStringCopying |
| lib/liblog/src/client/cmd_rlog.c:469 | A bare '+' sets the group mask to `(1<<rlog_no_groups)-1`. | A node with 32 log groups: the shift by 32 is undefined, and on x86 it enables no group. | Enable every listed group. | not executed | RemoteLog.AllGroupsAsWrittenWithFullTable | RemoteLog.AllGroups, RemoteLog.GroupEditsStayInTable |
| lib/libparam/src/param_string.c:197 | PARAM_UINT64 is named "uint65_t". | The type PARAM_UINT64. | "uint64_t", as its hex twin PARAM_X64 is named. | not executed | ParamTable.TypeNameAsWrittenSplitsWidth64 | ParamTable.TypeNameCorrectedSharesStorage |
| lib/libparam/src/param_string.c:176-181 | Each DATA byte is printed with snprintf bounded by max_size - size, where size counts every earlier piece in full. Once size passes max_size the bound goes negative and becomes a huge size_t. | param_list_single (lines 384-386) on a DATA parameter of 50 or more bytes: the tagged text overruns its 100-byte buffer. | Clamp the bound at 0 once the buffer is full. | not executed | ParamTable.DataListingOverrun, ParamTable.ReachAsWrittenOverruns | ParamTable.ReachBoundedWithinBuffer |
| clients/nanocam2/cmd_nanocam.c:268-270 | The bar length divides by bin_max. | An all-zero histogram, where bin_max stays 0. | Draw empty bars. | not executed | NanoCam.DarkHistogramDividesByZero | NanoCam.BlocksScale, NanoCam.BlocksOfEmptyHistogram |
| lib/libftp/src/ftp/ftp_client.c:636-640 | After a failed send, ftp_data calls csp_close(conn) but breaks only the inner loop. Later entries are still sent on the closed connection, and ftp_done closes it again (lines 676-677). | Two status entries, where the first send of entry 0 fails and entry 1 is not empty. | Abandon the transfer on the first failure: close the connection once and return -1. | not executed | FtpClient.DataSentAfterClose, FtpClient.Client.SendData | FtpClient.Client.SendDataClosingOnFailure |
