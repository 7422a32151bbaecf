/**
 * The data phase of a download (the receive loop of ftp_status_reply in
 * ftp_client.c) as a function of the packets that arrive, and the wire
 * encodings of chunk numbers. The link is a finite sequence of packets;
 * running out of packets is the read timeout.
 */
module FtpTransfer {
  import opened Common
  import opened FtpGeometry
  import opened FtpStatus

  /** Four bytes of a chunk-number field, in wire order. */
  type Word = s: seq<byte> | |s| == 4 witness [0, 0, 0, 0]

  /** csp_ntoh32 on the wire bytes: most significant byte first. */
  function Be32(w: Word): (n: u32)
    ensures n == LeDecode([w[3], w[2], w[1], w[0]])
  {
    ((w[0] as int * 0x100 + w[1]) * 0x100 + w[2]) * 0x100 + w[3]
  }

  /** csp_htole32: the bytes of n, least significant first. */
  function Le32(n: u32): (w: Word)
    ensures LeDecode(w) == n
  {
    var q1 := n / 0x100;
    var q2 := q1 / 0x100;
    var q3 := q2 / 0x100;
    assert q3 < 0x100;
    [n % 0x100, q1 % 0x100, q2 % 0x100, q3]
  }

  /** Reading a little-endian chunk field. */
  function LeDecode(w: Word): (n: u32)
    ensures n % 0x100 == w[0]
  {
    ((w[3] as int * 0x100 + w[2]) * 0x100 + w[1]) * 0x100 + w[0]
  }

  /** Encoding then decoding a chunk number in the upload order is the identity. */
  lemma {:induction false} LeRoundTrip(w: Word)
    ensures Le32(LeDecode(w)) == w
  {
    var n := LeDecode(w);
    var q2 := w[3] as int * 0x100 + w[2];
    var q1 := q2 * 0x100 + w[1];
    ModUnique(n, 0x100, q1, w[0]);
    ModUnique(q1, 0x100, q2, w[1]);
    ModUnique(q2, 0x100, w[3], w[2]);
  }

  /**
   * The two directions disagree on byte order: chunk 1 sent the way the
   * uploader sends it reads as 2^24 through the downloader's decoding.
   */
  lemma ByteOrdersDiffer()
    ensures Be32(Le32(1)) == 0x100_0000
  {
  }

  /** What csp_read hands the receive loop. */
  datatype Packet =
    | ServerIoError                          // packet type equal to FTP_RET_IO
    | Chunk(index: Word, payload: seq<byte>) // an FTP_DATA packet

  /** Outcome of the receive loop: the return value and both files. */
  datatype Received = Received(ok: bool, data: seq<byte>, marks: seq<byte>)

  /**
   * The receive loop: drop chunk numbers at or beyond ftp_chunks; otherwise
   * write the chunk's bytes at chunk * ftp_chunk_size, then mark the chunk
   * '+' in the map; stop successfully after the last chunk, fail on a
   * server error packet or a timeout.
   */
  function Receive(d: seq<byte>, m: seq<byte>, ps: seq<Packet>, size: u32, cs: int): (r: Received)
    requires ValidChunkSize(cs)
    ensures |r.data| >= |d| && |r.marks| >= |m|
    decreases |ps|
  {
    if ps == [] then Received(false, d, m)
    else match ps[0]
      case ServerIoError => Received(false, d, m)
      case Chunk(w, p) =>
        var idx := Be32(w);
        if idx >= ChunkCount(size, cs) then Receive(d, m, ps[1..], size, cs)
        else
          var d' := WriteAt(d, ChunkStart(cs, idx), Fit(p, ChunkLength(size, cs, idx)));
          var m' := WriteAt(m, idx, [PLUS]);
          if idx == ChunkCount(size, cs) - 1 then Received(true, d', m')
          else Receive(d', m', ps[1..], size, cs)
  }

  /** Packet k carries the last chunk. */
  predicate IsLast(ps: seq<Packet>, k: nat, size: u32, cs: int)
    requires ValidChunkSize(cs)
  {
    k < |ps| && ps[k].Chunk? && Be32(ps[k].index) == ChunkCount(size, cs) - 1
  }

  /** The loop succeeds only if the last chunk arrived. */
  lemma {:induction false} ReceiveOkNeedsLastChunk(d: seq<byte>, m: seq<byte>, ps: seq<Packet>, size: u32, cs: int)
    requires ValidChunkSize(cs)
    requires Receive(d, m, ps, size, cs).ok
    ensures exists k :: IsLast(ps, k, size, cs)
    decreases |ps|
  {
    assert ps != [];
    if ps[0].Chunk? {
      var idx := Be32(ps[0].index);
      if idx == ChunkCount(size, cs) - 1 {
        assert IsLast(ps, 0, size, cs);
      } else if idx >= ChunkCount(size, cs) {
        ReceiveOkNeedsLastChunk(d, m, ps[1..], size, cs);
        ShiftLast(ps, size, cs);
      } else {
        var d' := WriteAt(d, ChunkStart(cs, idx), Fit(ps[0].payload, ChunkLength(size, cs, idx)));
        var m' := WriteAt(m, idx, [PLUS]);
        ReceiveOkNeedsLastChunk(d', m', ps[1..], size, cs);
        ShiftLast(ps, size, cs);
      }
    }
  }

  lemma ShiftLast(ps: seq<Packet>, size: u32, cs: int)
    requires ValidChunkSize(cs) && ps != []
    requires exists k :: IsLast(ps[1..], k, size, cs)
    ensures exists k :: IsLast(ps, k, size, cs)
  {
    var k: nat :| IsLast(ps[1..], k, size, cs);
    assert IsLast(ps, k + 1, size, cs);
  }

  /** Without server errors, the loop succeeds once the last chunk arrives. */
  lemma {:induction false} LastChunkCompletes(d: seq<byte>, m: seq<byte>, ps: seq<Packet>, size: u32, cs: int, k: nat)
    requires ValidChunkSize(cs)
    requires IsLast(ps, k, size, cs)
    requires forall i :: 0 <= i < k ==> ps[i].Chunk?
    ensures Receive(d, m, ps, size, cs).ok
    decreases k
  {
    if k > 0 {
      var w, p := ps[0].index, ps[0].payload;
      var idx := Be32(w);
      if idx < ChunkCount(size, cs) && idx != ChunkCount(size, cs) - 1 {
        LastChunkCompletes(WriteAt(d, ChunkStart(cs, idx), Fit(p, ChunkLength(size, cs, idx))),
                           WriteAt(m, idx, [PLUS]), ps[1..], size, cs, k - 1);
      } else if idx >= ChunkCount(size, cs) {
        LastChunkCompletes(d, m, ps[1..], size, cs, k - 1);
      }
    }
  }

  // ---------------------------------------------------------------------
  // Resuming is safe: a chunk marked '+' holds the remote bytes.
  // ---------------------------------------------------------------------

  /** The local copy of chunk j equals the remote file's chunk j. */
  predicate ChunkMatches(d: seq<byte>, remote: seq<byte>, size: u32, cs: int, j: nat)
    requires ValidChunkSize(cs) && j < ChunkCount(size, cs)
  {
    var s, n := ChunkStart(cs, j), ChunkLength(size, cs, j);
    s + n <= |d| && s + n <= |remote| && d[s..s + n] == remote[s..s + n]
  }

  /** Every chunk the map marks received holds the remote bytes. */
  predicate Consistent(d: seq<byte>, m: seq<byte>, remote: seq<byte>, size: u32, cs: int)
    requires ValidChunkSize(cs)
  {
    forall j :: 0 <= j < ChunkCount(size, cs) && j < |m| && m[j] == PLUS ==>
      ChunkMatches(d, remote, size, cs, j)
  }

  /** Every in-range chunk packet carries the remote bytes of its chunk. */
  predicate Honest(ps: seq<Packet>, remote: seq<byte>, size: u32, cs: int)
    requires ValidChunkSize(cs)
  {
    forall k :: 0 <= k < |ps| && ps[k].Chunk? && Be32(ps[k].index) < ChunkCount(size, cs) ==>
      var j := Be32(ps[k].index);
      var s, n := ChunkStart(cs, j), ChunkLength(size, cs, j);
      s + n <= |remote| && Fit(ps[k].payload, n) == remote[s..s + n]
  }

  /** Writing chunk idx from the remote file leaves every other chunk as it was. */
  lemma WriteChunk(d: seq<byte>, remote: seq<byte>, size: u32, cs: int, idx: nat, j: nat)
    requires ValidChunkSize(cs) && idx < ChunkCount(size, cs) && j < ChunkCount(size, cs)
    requires ChunkStart(cs, idx) + ChunkLength(size, cs, idx) <= |remote|
    requires j != idx ==> ChunkMatches(d, remote, size, cs, j)
    ensures ChunkMatches(WriteAt(d, ChunkStart(cs, idx),
                                 remote[ChunkStart(cs, idx)..ChunkStart(cs, idx) + ChunkLength(size, cs, idx)]),
                         remote, size, cs, j)
  {
    var s, n := ChunkStart(cs, idx), ChunkLength(size, cs, idx);
    var d' := WriteAt(d, s, remote[s..s + n]);
    var sj, nj := ChunkStart(cs, j), ChunkLength(size, cs, j);
    if j == idx {
      assert d'[s..s + n] == remote[s..s + n];
    } else {
      if j < idx { ChunksDisjoint(size, cs, j, idx); } else { ChunksDisjoint(size, cs, idx, j); }
      forall i | sj <= i < sj + nj
        ensures d'[i] == d[i]
      {
      }
      assert d'[sj..sj + nj] == d[sj..sj + nj];
    }
  }

  /**
   * The receive loop keeps the map truthful: if every '+' chunk held the
   * remote bytes before, and the server sends the remote bytes, then every
   * '+' chunk holds them afterwards (the data is written before the mark).
   */
  lemma {:induction false} ReceiveKeepsConsistent(d: seq<byte>, m: seq<byte>, ps: seq<Packet>,
                                                  remote: seq<byte>, size: u32, cs: int)
    requires ValidChunkSize(cs)
    requires Consistent(d, m, remote, size, cs) && Honest(ps, remote, size, cs)
    ensures Consistent(Receive(d, m, ps, size, cs).data, Receive(d, m, ps, size, cs).marks, remote, size, cs)
    decreases |ps|
  {
    if ps != [] && ps[0].Chunk? {
      assert Honest(ps[1..], remote, size, cs) by {
        forall k | 0 <= k < |ps| - 1 ensures ps[1..][k] == ps[k + 1] { }
      }
      var idx := Be32(ps[0].index);
      if idx >= ChunkCount(size, cs) {
        ReceiveKeepsConsistent(d, m, ps[1..], remote, size, cs);
      } else {
        var s, n := ChunkStart(cs, idx), ChunkLength(size, cs, idx);
        assert Fit(ps[0].payload, n) == remote[s..s + n];
        MarkKeepsConsistent(d, m, remote, size, cs, idx);
        var d' := WriteAt(d, s, remote[s..s + n]);
        var m' := WriteAt(m, idx, [PLUS]);
        if idx != ChunkCount(size, cs) - 1 {
          ReceiveKeepsConsistent(d', m', ps[1..], remote, size, cs);
        }
      }
    }
  }

  /** Writing a chunk from the remote file and then marking it keeps a truthful map truthful. */
  lemma MarkKeepsConsistent(d: seq<byte>, m: seq<byte>, remote: seq<byte>, size: u32, cs: int, idx: nat)
    requires ValidChunkSize(cs) && idx < ChunkCount(size, cs)
    requires ChunkStart(cs, idx) + ChunkLength(size, cs, idx) <= |remote|
    requires Consistent(d, m, remote, size, cs)
    ensures var s, n := ChunkStart(cs, idx), ChunkLength(size, cs, idx);
            Consistent(WriteAt(d, s, remote[s..s + n]), WriteAt(m, idx, [PLUS]), remote, size, cs)
  {
    var s, n := ChunkStart(cs, idx), ChunkLength(size, cs, idx);
    var d' := WriteAt(d, s, remote[s..s + n]);
    var m' := WriteAt(m, idx, [PLUS]);
    forall j | 0 <= j < ChunkCount(size, cs) && j < |m'| && m'[j] == PLUS
      ensures ChunkMatches(d', remote, size, cs, j)
    {
      WriteChunk(d, remote, size, cs, idx, j);
    }
  }

  /**
   * Once every chunk is marked received in a truthful map, the local file
   * (of the remote file's length) is the remote file, so the CRC check
   * that follows compares equal contents.
   */
  lemma CompleteMeansEqual(d: seq<byte>, m: seq<byte>, remote: seq<byte>, size: u32, cs: int)
    requires ValidChunkSize(cs) && NoWrap(size, cs)
    requires |remote| == size && |d| == size
    requires ChunkCount(size, cs) <= |m|
    requires forall j :: 0 <= j < ChunkCount(size, cs) ==> m[j] == PLUS
    requires Consistent(d, m, remote, size, cs)
    ensures d == remote
  {
    forall k | 0 <= k < size
      ensures d[k] == remote[k]
    {
      ByteInChunk(size, cs, k);
      var j := k / cs;
      var s, n := ChunkStart(cs, j), ChunkLength(size, cs, j);
      assert ChunkMatches(d, remote, size, cs, j);
      assert d[s..s + n][k - s] == remote[s..s + n][k - s];
    }
  }

  /** A freshly created map (all '-') is trivially truthful. */
  lemma FreshMapConsistent(d: seq<byte>, remote: seq<byte>, size: u32, cs: int)
    requires ValidChunkSize(cs)
    ensures Consistent(d, Repeat(MINUS, ChunkCount(size, cs)), remote, size, cs)
  {
  }
}
