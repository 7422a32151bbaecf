/**
 * How the FTP client cuts a file into chunks (ftp_client.c): the chunk
 * count computed in 32-bit unsigned arithmetic, the length of each chunk,
 * and where each chunk sits in the file. Also the h/m/s rendering the
 * progress display uses for its time estimate.
 */
module FtpGeometry {
  import opened Common

  /** A chunk size the client can divide by: a positive C int. */
  predicate ValidChunkSize(cs: int)
  {
    0 < cs < 0x8000_0000
  }

  /**
   * ftp_chunks = (ftp_file_size + ftp_chunk_size - 1) / ftp_chunk_size,
   * evaluated as unsigned int: the sum wraps modulo 2^32 before dividing.
   */
  function ChunkCount(size: u32, cs: int): (n: u32)
    requires ValidChunkSize(cs)
  {
    Wrap(size + cs - 1) / cs
  }

  function Wrap(x: nat): (r: u32)
  {
    x % U32
  }

  /** The sum size + cs - 1 fits in 32 bits, so no wrap-around happens. */
  predicate NoWrap(size: u32, cs: int)
  {
    size + cs - 1 < U32
  }

  /**
   * Bytes carried by chunk idx: a full chunk, except the last one, which
   * carries size % cs bytes, or a full chunk when that remainder is 0.
   */
  function ChunkLength(size: u32, cs: int, idx: nat): (len: nat)
    requires ValidChunkSize(cs)
    requires idx < ChunkCount(size, cs)
    ensures 0 < len <= cs
  {
    if idx == ChunkCount(size, cs) - 1 then
      (if size % cs == 0 then cs else size % cs)
    else cs
  }

  lemma ModUnique(a: int, d: int, q: int, r: int)
    requires d > 0 && 0 <= r < d && a == q * d + r
    ensures a % d == r && a / d == q
  {
    var q0, r0 := a / d, a % d;
    assert a == q0 * d + r0;
    assert (q0 - q) * d == r - r0 by {
      assert (q0 - q) * d == q0 * d - q * d;
    }
    if q0 > q {
      MulMonotone(1, q0 - q, d);
    } else if q0 < q {
      MulMonotone(1, q - q0, d);
    }
  }

  lemma MulMonotone(a: int, b: int, d: int)
    requires 0 <= a <= b && d >= 0
    ensures a * d <= b * d
  {
  }

  /**
   * Without wrap-around the count is the ceiling of size / cs: the chunks
   * cover the file, and the last chunk starts inside it. An empty file has
   * no chunks at all.
   */
  lemma {:induction false} ChunkCountIsCeiling(size: u32, cs: int)
    requires ValidChunkSize(cs) && NoWrap(size, cs)
    ensures size == 0 ==> ChunkCount(size, cs) == 0
    ensures size > 0 ==> ChunkCount(size, cs) > 0
    ensures ChunkCount(size, cs) * cs >= size
    ensures size > 0 ==> (ChunkCount(size, cs) - 1) * cs < size
  {
    var a := size + cs - 1;
    var q, r := a / cs, a % cs;
    assert a % U32 == a;
    assert ChunkCount(size, cs) == q;
    assert a == q * cs + r && 0 <= r < cs;
    if size == 0 {
      ModUnique(a, cs, 0, cs - 1);
    } else {
      assert q * cs >= size;
      if q == 0 { assert false; }
      assert (q - 1) * cs == q * cs - cs;
    }
  }

  /**
   * Whatever the file size, a chunk index below the count starts strictly
   * inside the file, so idx * ftp_chunk_size never wraps in 32 bits.
   */
  lemma {:induction false} ChunkStartsInsideFile(size: u32, cs: int, idx: nat)
    requires ValidChunkSize(cs)
    requires idx < ChunkCount(size, cs)
    ensures idx * cs < size
  {
    var a := (size + cs - 1) % U32;
    var q := a / cs;
    assert a == q * cs + a % cs;
    MulMonotone(idx, q - 1, cs);
    assert idx * cs <= q * cs - cs;
    assert a <= size + cs - 1;
  }

  /** Start and end offset of chunk idx in the file. */
  function ChunkStart(cs: int, idx: nat): nat
    requires ValidChunkSize(cs)
  {
    idx * cs
  }

  /**
   * Without wrap-around each chunk lies inside the file, the last one ends
   * exactly at the file's end, and chunk idx ends where chunk idx + 1 starts.
   */
  lemma {:induction false} ChunkExtent(size: u32, cs: int, idx: nat)
    requires ValidChunkSize(cs) && NoWrap(size, cs)
    requires idx < ChunkCount(size, cs)
    ensures ChunkStart(cs, idx) + ChunkLength(size, cs, idx) <= size
    ensures idx == ChunkCount(size, cs) - 1 ==>
              ChunkStart(cs, idx) + ChunkLength(size, cs, idx) == size
    ensures idx < ChunkCount(size, cs) - 1 ==>
              ChunkStart(cs, idx) + ChunkLength(size, cs, idx) == ChunkStart(cs, idx + 1)
  {
    ChunkCountIsCeiling(size, cs);
    var q := ChunkCount(size, cs);
    var last := (q - 1) * cs;
    if idx == q - 1 {
      var rem := size - last;
      assert 0 < rem <= cs;
      if rem == cs {
        ModUnique(size, cs, q, 0);
      } else {
        ModUnique(size, cs, q - 1, rem);
      }
    } else {
      MulMonotone(idx + 1, q - 1, cs);
      assert (idx + 1) * cs == idx * cs + cs;
    }
  }

  /** Chunks never overlap: an earlier chunk ends before a later one starts. */
  lemma {:induction false} ChunksDisjoint(size: u32, cs: int, i: nat, j: nat)
    requires ValidChunkSize(cs)
    requires i < j < ChunkCount(size, cs)
    ensures ChunkStart(cs, i) + ChunkLength(size, cs, i) <= ChunkStart(cs, j)
  {
    MulMonotone(i + 1, j, cs);
    assert (i + 1) * cs == i * cs + cs;
  }

  /**
   * Without wrap-around every byte of a non-empty file belongs to exactly
   * the chunk k / cs, at offset k % cs inside it.
   */
  lemma {:induction false} ByteInChunk(size: u32, cs: int, k: nat)
    requires ValidChunkSize(cs) && NoWrap(size, cs)
    requires k < size
    ensures k / cs < ChunkCount(size, cs)
    ensures ChunkStart(cs, k / cs) <= k < ChunkStart(cs, k / cs) + ChunkLength(size, cs, k / cs)
  {
    ChunkCountIsCeiling(size, cs);
    var q := ChunkCount(size, cs);
    var j := k / cs;
    assert k == j * cs + k % cs;
    if j >= q {
      MulMonotone(q, j, cs);
      assert false;
    }
    if j == q - 1 {
      ChunkExtent(size, cs, j);
    }
  }

  /**
   * The count as written, with the wrap-around: a file within cs - 1 bytes
   * of 4 GiB gets too few chunks (here: none at all).
   */
  lemma NearFourGiBGetsNoChunks()
    ensures ChunkCount(0xFFFF_FFFF, 175) == 0
    ensures !NoWrap(0xFFFF_FFFF, 175)
  {
  }

  // ---------------------------------------------------------------------
  // sec_to_time
  // ---------------------------------------------------------------------

  datatype Hms = Hms(hour: nat, min: nat, sec: nat)

  /** hour = total / 3600, min = rest / 60, sec = what is left. */
  function SplitSeconds(total: nat): (t: Hms)
    ensures t.min < 60 && t.sec < 60
    ensures t.hour * 3600 + t.min * 60 + t.sec == total
  {
    var hour := total / 3600;
    var rest := total - hour * 3600;
    Hms(hour, rest / 60, rest - (rest / 60) * 60)
  }

  /**
   * The text sec_to_time builds: "<h>h <m>m <s>s" when there are hours,
   * "<m>m <s>s" when there are minutes, "<s>s" when there are seconds,
   * and the empty string for zero.
   */
  function SecToTime(total: nat): (s: string)
    ensures s == "" <==> total == 0
    ensures 0 < total < 60 ==> s == Decimal(total) + "s"
  {
    var t := SplitSeconds(total);
    if t.hour != 0 then
      Decimal(t.hour) + "h " + Decimal(t.min) + "m " + Decimal(t.sec) + "s"
    else if t.min != 0 then
      Decimal(t.min) + "m " + Decimal(t.sec) + "s"
    else if t.sec != 0 then
      Decimal(t.sec) + "s"
    else ""
  }

  /** The split is unique: any h/m/s reading of total with m, s < 60 is this one. */
  lemma {:induction false} SplitSecondsUnique(total: nat, h: nat, m: nat, s: nat)
    requires m < 60 && s < 60 && h * 3600 + m * 60 + s == total
    ensures SplitSeconds(total) == Hms(h, m, s)
  {
    ModUnique(total, 3600, h, m * 60 + s);
    var rest := total - h * 3600;
    assert rest == m * 60 + s;
    ModUnique(rest, 60, m, s);
  }
}
