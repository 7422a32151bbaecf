/**
 * The whole-file CRC-32 of ftp_file_crc32 (ftp_client.c): start from
 * 0xFFFFFFFF, feed every byte through chksum_crc32_step, finish with an
 * XOR by 0xFFFFFFFF. The step function lives in another library and is a
 * parameter here.
 */
module FtpCrc {
  import opened Common

  /** chksum_crc32_step(crc, byte) */
  type CrcStep = (bv32, byte) -> bv32

  /** The running CRC after feeding data, oldest byte first. */
  function Fold(step: CrcStep, crc: bv32, data: seq<byte>): bv32
  {
    if data == [] then crc
    else step(Fold(step, crc, data[..|data| - 1]), data[|data| - 1])
  }

  /** The CRC the client computes over the full contents of a file. */
  function FileCrc(step: CrcStep, data: seq<byte>): bv32
  {
    Fold(step, 0xFFFF_FFFF, data) ^ 0xFFFF_FFFF
  }

  /** Feeding a then b is feeding a + b: the block size does not matter. */
  lemma {:induction false} FoldAppend(step: CrcStep, crc: bv32, a: seq<byte>, b: seq<byte>)
    ensures Fold(step, crc, a + b) == Fold(step, Fold(step, crc, a), b)
    decreases |b|
  {
    if b != [] {
      var ab := a + b;
      assert ab[..|ab| - 1] == a + b[..|b| - 1];
      FoldAppend(step, crc, a, b[..|b| - 1]);
    } else {
      assert a + b == a;
    }
  }

  /**
   * ftp_file_crc32: read the file in 128-byte blocks and feed each block
   * to the CRC, until a read returns nothing.
   */
  method ComputeFileCrc(step: CrcStep, data: seq<byte>) returns (crc: bv32)
    ensures crc == FileCrc(step, data)
  {
    var pos := 0;
    crc := 0xFFFF_FFFF;
    var bytes := 1;
    while bytes > 0
      invariant 0 <= pos <= |data|
      invariant bytes >= 0 && (bytes == 0 ==> pos == |data|)
      invariant crc == Fold(step, 0xFFFF_FFFF, data[..pos])
      decreases |data| - pos, bytes
    {
      bytes := if |data| - pos < 128 then |data| - pos else 128;
      var i := 0;
      while i < bytes
        invariant 0 <= i <= bytes
        invariant crc == Fold(step, 0xFFFF_FFFF, data[..pos + i])
      {
        assert data[..pos + i + 1][..pos + i] == data[..pos + i];
        crc := step(crc, data[pos + i]);
        i := i + 1;
      }
      pos := pos + bytes;
    }
    assert data[..pos] == data;
    crc := crc ^ 0xFFFF_FFFF;
  }
}
