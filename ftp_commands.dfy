/**
 * The ftp shell commands of cmd_ftp.c: argument checks, the settings the
 * commands share (host, port, chunk size, backend, timeout) and the order
 * in which a transfer command runs the phases of the FTP client. The
 * phases themselves are abstract here: each one either succeeds or fails,
 * as an oracle says; FtpClient models what they do.
 */
module FtpCommands {
  import opened Common

  // ---------------------------------------------------------------------
  // ftp_basename
  // ---------------------------------------------------------------------

  /** The part of path after its last '/', or all of path when it has none. */
  function Basename(path: string): (b: string)
    ensures |b| <= |path| && b == path[|path| - |b|..]
    ensures forall i :: 0 <= i < |b| ==> b[i] != '/'
    ensures |b| < |path| ==> path[|path| - |b| - 1] == '/'
  {
    match LastIndexOf(path, '/')
    case None => path
    case Some(i) => path[i + 1..]
  }

  /** A path with no '/' is its own base name; otherwise the base name is shorter. */
  lemma BasenameWhole(path: string)
    ensures Basename(path) == path <==> forall i :: 0 <= i < |path| ==> path[i] != '/'
  {
    if Basename(path) != path {
      assert |Basename(path)| < |path|;
    }
  }

  /** The base name of dir/name is name, whatever dir is. */
  lemma {:induction false} BasenameOfJoin(dir: string, name: string)
    requires forall i :: 0 <= i < |name| ==> name[i] != '/'
    ensures Basename(dir + "/" + name) == name
  {
    var p := dir + "/" + name;
    var k := |dir|;
    assert p[k] == '/';
    var b := Basename(p);
    assert |b| == |name|;
    assert b == p[|p| - |name|..];
    assert p[|p| - |name|..] == name;
  }

  /** Taking the base name twice changes nothing. */
  lemma BasenameIdempotent(path: string)
    ensures Basename(Basename(path)) == Basename(path)
  {
    BasenameWhole(Basename(path));
  }

  // ---------------------------------------------------------------------
  // Phase sequencing
  // ---------------------------------------------------------------------

  /** A call into the FTP client, with the arguments the command passes. */
  datatype Phase =
    | Download(local: string, source: Option<string>, backend: nat, chunkSize: nat, memAddr: nat, memSize: nat)
    | Upload(local: string, target: string, backend: nat, chunkSize: nat, memAddr: nat)
    | StatusReply
    | StatusRequest
    | SendData
    | Crc
    | Done(removeMap: bool)

  /** Every phase of steps succeeds. */
  predicate AllOk(steps: seq<Phase>, ok: Phase -> bool)
  {
    forall i :: 0 <= i < |steps| ==> ok(steps[i])
  }

  /**
   * The calls a transfer command makes: the steps in order until one
   * fails, then ftp_done(0) after a failure or ftp_done(removeOnSuccess)
   * when every step succeeded.
   */
  function Session(steps: seq<Phase>, ok: Phase -> bool, removeOnSuccess: bool): (trace: seq<Phase>)
    ensures 0 < |trace| <= |steps| + 1
  {
    if steps == [] then [Done(removeOnSuccess)]
    else if !ok(steps[0]) then [steps[0], Done(false)]
    else [steps[0]] + Session(steps[1..], ok, removeOnSuccess)
  }

  /**
   * A session always ends in exactly one ftp_done, which removes the map
   * only when asked to on success and every step succeeded.
   */
  lemma {:induction false} SessionEndsInDone(steps: seq<Phase>, ok: Phase -> bool, removeOnSuccess: bool)
    requires forall i :: 0 <= i < |steps| ==> !steps[i].Done?
    ensures var t := Session(steps, ok, removeOnSuccess);
            t[|t| - 1] == Done(removeOnSuccess && AllOk(steps, ok)) &&
            forall i :: 0 <= i < |t| - 1 ==> !t[i].Done?
  {
    if steps != [] && ok(steps[0]) {
      SessionEndsInDone(steps[1..], ok, removeOnSuccess);
      if !AllOk(steps[1..], ok) {
        var i :| 0 <= i < |steps[1..]| && !ok(steps[1..][i]);
        assert !ok(steps[i + 1]);
      }
    }
  }

  /**
   * Before its ftp_done a session runs a prefix of the steps: each
   * succeeded except possibly the last one run, and it stops there.
   */
  lemma {:induction false} SessionRunsPrefix(steps: seq<Phase>, ok: Phase -> bool, removeOnSuccess: bool)
    ensures var t := Session(steps, ok, removeOnSuccess);
            && t[..|t| - 1] <= steps
            && (forall i :: 0 <= i < |t| - 2 ==> ok(t[i]))
            && (AllOk(steps, ok) ==> t[..|t| - 1] == steps)
            && (!AllOk(steps, ok) ==> |t| >= 2 && !ok(t[|t| - 2]))
  {
    if steps != [] && ok(steps[0]) {
      SessionRunsPrefix(steps[1..], ok, removeOnSuccess);
      var t' := Session(steps[1..], ok, removeOnSuccess);
      var t := Session(steps, ok, removeOnSuccess);
      assert t == [steps[0]] + t';
      assert |t'| > 0;
      assert t[..|t| - 1] == ([steps[0]] + t')[..|t'|];
      assert ([steps[0]] + t')[..|t'|] == [steps[0]] + t'[..|t'| - 1];
      assert steps == [steps[0]] + steps[1..];
      if !AllOk(steps, ok) {
        var i :| 0 <= i < |steps| && !ok(steps[i]);
        assert steps[1..][i - 1] == steps[i];
      }
    }
  }

  // ---------------------------------------------------------------------
  // Commands that send one request
  // ---------------------------------------------------------------------

  /** FTP_ZIP and FTP_UNZIP. */
  datatype ZipAction = Zip | Unzip

  /** The single request a command sends, once its arguments are accepted. */
  datatype Request =
    | List(path: string)
    | Remove(path: string)
    | Mkfs(path: string, force: bool)
    | Move(from: string, to: string)
    | Copy(from: string, to: string)
    | Archive(src: string, dst: string, action: ZipAction)

  /** A path a command accepts: between 3 and FTP_PATH_LENGTH characters. */
  predicate PathFits(p: string, pathLength: nat)
  {
    3 <= |p| <= pathLength
  }

  /** ftp ls and ftp rm: one path of at most FTP_PATH_LENGTH characters. */
  function PathRequest(argv: seq<string>, pathLength: nat, remove: bool): (r: Option<Request>)
    ensures r.Some? <==> |argv| == 2 && |argv[1]| <= pathLength
    ensures r.Some? ==> r.value == if remove then Remove(argv[1]) else List(argv[1])
  {
    if |argv| != 2 || |argv[1]| > pathLength then None
    else if remove then Some(Remove(argv[1])) else Some(List(argv[1]))
  }

  /** ftp mkfs: the optional third word must be a yes or a no. */
  function MkfsRequest(argv: seq<string>): (r: Option<Request>)
    ensures |argv| < 2 ==> r.None?
    ensures |argv| == 2 ==> r == Some(Mkfs(argv[1], false))
  {
    if |argv| < 2 then None
    else if |argv| > 2 then
      if argv[2] == "1" || argv[2] == "yes" || argv[2] == "true" then Some(Mkfs(argv[1], true))
      else if argv[2] == "0" || argv[2] == "no" || argv[2] == "false" then Some(Mkfs(argv[1], false))
      else None
    else Some(Mkfs(argv[1], false))
  }

  /** force is set exactly by the three yes words, and only they and the three no words parse. */
  lemma MkfsForce(argv: seq<string>)
    requires |argv| > 2
    ensures MkfsRequest(argv).Some? <==>
              argv[2] in {"1", "yes", "true", "0", "no", "false"}
    ensures MkfsRequest(argv).Some? ==>
              (MkfsRequest(argv).value.force <==> argv[2] in {"1", "yes", "true"})
  {
  }

  /** ftp mv, ftp cp, ftp zip and ftp unzip: two paths that fit. */
  function TwoPathRequest(argv: seq<string>, pathLength: nat): (r: Option<Request>)
    ensures r.Some? <==> |argv| == 3 && PathFits(argv[1], pathLength) && PathFits(argv[2], pathLength)
    ensures r.Some? && argv[0] == "zip" ==> r.value == Archive(argv[1], argv[2], Zip)
    ensures r.Some? && argv[0] == "unzip" ==> r.value == Archive(argv[1], argv[2], Unzip)
    ensures r.Some? && argv[0] == "mv" ==> r.value == Move(argv[1], argv[2])
    ensures r.Some? && argv[0] == "cp" ==> r.value == Copy(argv[1], argv[2])
  {
    if |argv| != 3 || !PathFits(argv[1], pathLength) || !PathFits(argv[2], pathLength) then None
    else if argv[0] == "mv" then Some(Move(argv[1], argv[2]))
    else if argv[0] == "cp" then Some(Copy(argv[1], argv[2]))
    else Some(Archive(argv[1], argv[2], ActionFor(argv[0])))
  }

  /** cmd_ftp_zip's choice: zip only for the word "zip", unzip for anything else. */
  function ActionFor(name: string): (a: ZipAction)
    ensures a == Zip <==> name == "zip"
  {
    if name == "zip" then Zip else Unzip
  }

  /** The command's result once its request went out: FAIL when the client call failed. */
  function OneShot(req: Option<Request>, accepted: Request -> bool): (r: CmdResult)
    ensures r == CmdSyntax <==> req.None?
    ensures r == CmdOk <==> req.Some? && accepted(req.value)
  {
    match req
    case None => CmdSyntax
    case Some(q) => if accepted(q) then CmdOk else CmdFail
  }

  // ---------------------------------------------------------------------
  // The shell's settings and the transfer commands
  // ---------------------------------------------------------------------

  class Shell {
    /** FTP_PATH_LENGTH */
    const pathLength: nat
    /** ftp_host, ftp_port, ftp_chunk_size, ftp_backend: unsigned int. */
    var host: u32
    var port: u32
    var chunkSize: u32
    var backend: u32
    /** ftp_timeout of the client, in ms. */
    var timeout: int
    /** The client calls made so far, in order. */
    var phases: seq<Phase>

    constructor(pathLength: nat)
      ensures this.pathLength == pathLength
      ensures host == 1 && port == 9 && chunkSize == 185 && backend == 3 && timeout == 30000
      ensures phases == []
    {
      this.pathLength := pathLength;
      host, port, chunkSize, backend := 1, 9, 185, 3;
      timeout := 30000;
      phases := [];
    }

    /** ftp backend <n>: atoi's value stored as unsigned int. */
    method SetBackend(argv: seq<string>, atoi: string -> int) returns (r: CmdResult)
      modifies this`backend
      ensures |argv| != 2 ==> r == CmdSyntax && backend == old(backend)
      ensures |argv| == 2 ==> r == CmdOk && backend == atoi(argv[1]) % U32
    {
      if |argv| != 2 {
        return CmdSyntax;
      }
      backend := atoi(argv[1]) % U32;
      r := CmdOk;
    }

    /** ftp server <host> [port] [chunk size] */
    method SetHostPort(argv: seq<string>, atoi: string -> int) returns (r: CmdResult)
      modifies this`host, this`port, this`chunkSize
      ensures |argv| < 2 ==> r == CmdSyntax && host == old(host) && port == old(port) && chunkSize == old(chunkSize)
      ensures |argv| >= 2 ==>
                && r == CmdOk
                && host == atoi(argv[1]) % U32
                && port == (if |argv| > 2 then atoi(argv[2]) % U32 else old(port))
                && chunkSize == (if |argv| > 3 then atoi(argv[3]) % U32 else old(chunkSize))
    {
      if |argv| < 2 {
        return CmdSyntax;
      }
      host := atoi(argv[1]) % U32;
      if |argv| > 2 {
        port := atoi(argv[2]) % U32;
      }
      if |argv| > 3 {
        chunkSize := atoi(argv[3]) % U32;
      }
      r := CmdOk;
    }

    /** ftp timeout [ms] */
    method SetTimeout(argv: seq<string>, atoi: string -> int) returns (r: CmdResult)
      modifies this`timeout
      ensures |argv| > 2 ==> r == CmdSyntax && timeout == old(timeout)
      ensures |argv| <= 2 ==> r == CmdOk && timeout == (if |argv| == 2 then atoi(argv[1]) else old(timeout))
    {
      if |argv| > 2 {
        return CmdSyntax;
      }
      if |argv| == 2 {
        timeout := atoi(argv[1]);
      }
      r := CmdOk;
    }

    /**
     * Run steps in order, stopping at the first failure; then ftp_done,
     * removing the map only after full success and when asked to.
     */
    method RunSession(steps: seq<Phase>, ok: Phase -> bool, removeOnSuccess: bool) returns (r: CmdResult)
      modifies this`phases
      ensures phases == old(phases) + Session(steps, ok, removeOnSuccess)
      ensures r == (if AllOk(steps, ok) then CmdOk else CmdFail)
    {
      var i := 0;
      while i < |steps|
        invariant i <= |steps|
        invariant AllOk(steps[..i], ok)
        invariant phases + Session(steps[i..], ok, removeOnSuccess) ==
                  old(phases) + Session(steps, ok, removeOnSuccess)
      {
        phases := phases + [steps[i]];
        if !ok(steps[i]) {
          phases := phases + [Done(false)];
          assert Session(steps[i..], ok, removeOnSuccess) == [steps[i], Done(false)];
          return CmdFail;
        }
        assert steps[..i + 1] == steps[..i] + [steps[i]];
        assert steps[i..][1..] == steps[i + 1..];
        i := i + 1;
      }
      phases := phases + [Done(removeOnSuccess)];
      assert steps[..i] == steps;
      r := CmdOk;
    }

    /**
     * ftp download_file <remote> [local]: the local name defaults to the
     * remote path's base name; download, receive, check the CRC, and
     * remove the map only when all three succeeded.
     */
    method DownloadFile(argv: seq<string>, ok: Phase -> bool) returns (r: CmdResult)
      modifies this`phases
      ensures !(2 <= |argv| <= 3 && |argv[1]| <= pathLength) ==> r == CmdSyntax && phases == old(phases)
      ensures 2 <= |argv| <= 3 && |argv[1]| <= pathLength ==>
                var local := if |argv| == 3 then argv[2] else Basename(argv[1]);
                var steps := [Download(local, Some(argv[1]), backend, chunkSize, 0, 0), StatusReply, Crc];
                phases == old(phases) + Session(steps, ok, true) &&
                r == (if AllOk(steps, ok) then CmdOk else CmdFail)
    {
      if |argv| < 2 || |argv| > 3 || |argv[1]| > pathLength {
        return CmdSyntax;
      }
      var local := if |argv| == 3 then argv[2] else Basename(argv[1]);
      r := RunSession([Download(local, Some(argv[1]), backend, chunkSize, 0, 0), StatusReply, Crc], ok, true);
    }

    /**
     * ftp upload_file <local> <remote>: upload, learn what the server
     * lacks, send it, check the CRC; the map-less upload always ends
     * with ftp_done(0).
     */
    method UploadFile(argv: seq<string>, ok: Phase -> bool) returns (r: CmdResult)
      modifies this`phases
      ensures !(|argv| == 3 && PathFits(argv[2], pathLength) && |argv[1]| >= 3) ==>
                r == CmdSyntax && phases == old(phases)
      ensures |argv| == 3 && PathFits(argv[2], pathLength) && |argv[1]| >= 3 ==>
                var steps := [Upload(argv[1], argv[2], backend, chunkSize, 0), StatusRequest, SendData, Crc];
                phases == old(phases) + Session(steps, ok, false) &&
                r == (if AllOk(steps, ok) then CmdOk else CmdFail)
    {
      if |argv| != 3 || !PathFits(argv[2], pathLength) || |argv[1]| < 3 {
        return CmdSyntax;
      }
      r := RunSession([Upload(argv[1], argv[2], backend, chunkSize, 0), StatusRequest, SendData, Crc], ok, false);
    }

    /**
     * ftp download_mem <local> <addr> <length>: memory download on
     * backend 0 without a remote path; addr and length are what sscanf
     * made of the words, None when it failed.
     */
    method DownloadMem(argv: seq<string>, addr: Option<u32>, length: Option<u32>, ok: Phase -> bool)
      returns (r: CmdResult)
      modifies this`phases
      ensures !(|argv| == 4 && PathFits(argv[1], pathLength) && addr.Some? && length.Some?) ==>
                r == CmdSyntax && phases == old(phases)
      ensures |argv| == 4 && PathFits(argv[1], pathLength) && addr.Some? && length.Some? ==>
                var steps := [Download(argv[1], None, 0, chunkSize, addr.value, length.value), StatusReply, Crc];
                phases == old(phases) + Session(steps, ok, true) &&
                r == (if AllOk(steps, ok) then CmdOk else CmdFail)
    {
      if |argv| != 4 || !PathFits(argv[1], pathLength) || addr.None? || length.None? {
        return CmdSyntax;
      }
      r := RunSession([Download(argv[1], None, 0, chunkSize, addr.value, length.value), StatusReply, Crc], ok, true);
    }

    /**
     * ftp upload_mem <local> <addr>: memory upload on backend 0 with an
     * empty remote path; unlike upload_file it ends with ftp_done(1).
     */
    method UploadMem(argv: seq<string>, addr: Option<u32>, ok: Phase -> bool) returns (r: CmdResult)
      modifies this`phases
      ensures !(|argv| == 3 && PathFits(argv[1], pathLength) && addr.Some?) ==>
                r == CmdSyntax && phases == old(phases)
      ensures |argv| == 3 && PathFits(argv[1], pathLength) && addr.Some? ==>
                var steps := [Upload(argv[1], "", 0, chunkSize, addr.value), StatusRequest, SendData, Crc];
                phases == old(phases) + Session(steps, ok, true) &&
                r == (if AllOk(steps, ok) then CmdOk else CmdFail)
    {
      if |argv| != 3 || !PathFits(argv[1], pathLength) || addr.None? {
        return CmdSyntax;
      }
      r := RunSession([Upload(argv[1], "", 0, chunkSize, addr.value), StatusRequest, SendData, Crc], ok, true);
    }
  }

  /**
   * Of the four transfer commands, a file upload never asks ftp_done to
   * remove the map; the other three do exactly when every phase succeeded.
   */
  lemma TransferDoneFlags(steps: seq<Phase>, ok: Phase -> bool)
    requires forall i :: 0 <= i < |steps| ==> !steps[i].Done?
    ensures var t := Session(steps, ok, false); t[|t| - 1] == Done(false)
    ensures var t := Session(steps, ok, true); t[|t| - 1] == Done(AllOk(steps, ok))
  {
    SessionEndsInDone(steps, ok, false);
    SessionEndsInDone(steps, ok, true);
  }
}
