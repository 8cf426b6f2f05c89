/**
 * The frame codec of bcc_peripheries.c: a 40-bit BCC frame (5 bytes) is laid out in an
 * 8-byte buffer for the S32K1xx LPSPI driver. Bytes 0..3 are reversed, byte 4 is copied,
 * and bytes 5..7 of the wire buffer are never written.
 */
module Codec {

  newtype byte = x: int | 0 <= x < 256

  /** BCC_MSG_SIZE: one frame is 40 bits. */
  const FrameSize: nat := 5
  /** LPSPI_ALIGNMENT: a 40-bit frame occupies 8 bytes of an LPSPI buffer. */
  const Alignment: nat := 8

  /**
   * The wire buffer after the five stores of the encoder, when it held `scratch` before:
   * the padding bytes keep whatever the buffer held.
   */
  function Encode(f: seq<byte>, scratch: seq<byte>): (w: seq<byte>)
    requires |f| == FrameSize && |scratch| == Alignment
    ensures |w| == Alignment
    ensures w[FrameSize..] == scratch[FrameSize..]
    ensures forall i :: 0 <= i < 4 ==> w[i] == f[3 - i]
    ensures w[4] == f[4]
  {
    [f[3], f[2], f[1], f[0], f[4]] + scratch[FrameSize..]
  }

  /** The five stores of the decoder: only the first five wire bytes are read. */
  function Decode(w: seq<byte>): (f: seq<byte>)
    requires |w| >= FrameSize
    ensures |f| == FrameSize
    ensures forall i :: 0 <= i < 4 ==> f[i] == w[3 - i]
    ensures f[4] == w[4]
  {
    [w[3], w[2], w[1], w[0], w[4]]
  }

  /** Decoding what was encoded gives back the frame, whatever the padding held. */
  lemma DecodeEncode(f: seq<byte>, scratch: seq<byte>)
    requires |f| == FrameSize && |scratch| == Alignment
    ensures Decode(Encode(f, scratch)) == f
  {
  }

  /** Re-encoding a decoded wire buffer over itself restores the buffer. */
  lemma EncodeDecode(w: seq<byte>)
    requires |w| == Alignment
    ensures Encode(Decode(w), w) == w
  {
  }

  /** The padding bytes and anything after the first five never reach the decoded frame. */
  lemma DecodeIgnoresPadding(w1: seq<byte>, w2: seq<byte>)
    requires |w1| >= FrameSize && |w2| >= FrameSize
    ensures Decode(w1) == Decode(w2) <==> w1[..FrameSize] == w2[..FrameSize]
  {
    if Decode(w1) == Decode(w2) {
      assert forall i :: 0 <= i < FrameSize ==> w1[i] == w2[i] by {
        forall i | 0 <= i < FrameSize ensures w1[i] == w2[i] {
          if i < 4 {
            assert Decode(w1)[3 - i] == Decode(w2)[3 - i];
          } else {
            assert Decode(w1)[4] == Decode(w2)[4];
          }
        }
      }
    }
  }

  /**
   * The frame 12 34 56 78 0F goes on the wire as 78 56 34 12 0F followed by the old
   * padding, and an echo of those wire bytes decodes back to the frame.
   */
  lemma WireExample(scratch: seq<byte>)
    requires |scratch| == Alignment
    ensures Encode([0x12, 0x34, 0x56, 0x78, 0x0F], scratch)[..FrameSize] == [0x78, 0x56, 0x34, 0x12, 0x0F]
    ensures Decode([0x78, 0x56, 0x34, 0x12, 0x0F] + scratch[FrameSize..]) == [0x12, 0x34, 0x56, 0x78, 0x0F]
  {
  }

  /** Two frames with the same wire image are the same frame. */
  lemma EncodeInjective(f1: seq<byte>, f2: seq<byte>, scratch: seq<byte>)
    requires |f1| == FrameSize && |f2| == FrameSize && |scratch| == Alignment
    requires Encode(f1, scratch)[..FrameSize] == Encode(f2, scratch)[..FrameSize]
    ensures f1 == f2
  {
    DecodeEncode(f1, scratch);
    DecodeEncode(f2, scratch);
    DecodeIgnoresPadding(Encode(f1, scratch), Encode(f2, scratch));
  }

  /** A batch of `n` wire blocks decoded in order, block i being bytes 8i..8i+7 of `rx`. */
  function DecodeBlocks(rx: seq<byte>, n: nat): (r: seq<byte>)
    requires Alignment * n <= |rx|
    ensures |r| == FrameSize * n
  {
    if n == 0 then [] else DecodeBlocks(rx, n - 1) + Decode(rx[Alignment * (n - 1) ..])
  }

  /** Frame i of a decoded batch is the decode of bytes 8i..8i+4, for every i < n. */
  lemma {:induction false} DecodeBlocksAt(rx: seq<byte>, n: nat, i: nat)
    requires Alignment * n <= |rx| && i < n
    ensures DecodeBlocks(rx, n)[FrameSize * i .. FrameSize * i + FrameSize]
         == Decode(rx[Alignment * i .. Alignment * i + FrameSize])
  {
    var front := DecodeBlocks(rx, n - 1);
    assert DecodeBlocks(rx, n) == front + Decode(rx[Alignment * (n - 1) ..]);
    if i < n - 1 {
      DecodeBlocksAt(rx, n - 1, i);
      assert DecodeBlocks(rx, n)[FrameSize * i .. FrameSize * i + FrameSize]
          == front[FrameSize * i .. FrameSize * i + FrameSize];
    } else {
      DecodeIgnoresPadding(rx[Alignment * i ..], rx[Alignment * i .. Alignment * i + FrameSize]);
    }
  }

  /** Decoding one more block appends the decode of its first five bytes. */
  lemma DecodeBlocksNext(rx: seq<byte>, i: nat)
    requires Alignment * (i + 1) <= |rx|
    ensures DecodeBlocks(rx, i + 1)
         == DecodeBlocks(rx, i) + Decode(rx[Alignment * i .. Alignment * i + FrameSize])
  {
    DecodeIgnoresPadding(rx[Alignment * i ..], rx[Alignment * i .. Alignment * i + FrameSize]);
  }

  /** Only bytes 0..4 of each block reach the decoded batch. */
  lemma {:induction false} DecodeBlocksIgnoresPadding(rx1: seq<byte>, rx2: seq<byte>, n: nat)
    requires Alignment * n <= |rx1| && Alignment * n <= |rx2|
    requires forall i :: 0 <= i < n ==>
      rx1[Alignment * i .. Alignment * i + FrameSize] == rx2[Alignment * i .. Alignment * i + FrameSize]
    ensures DecodeBlocks(rx1, n) == DecodeBlocks(rx2, n)
  {
    if n > 0 {
      DecodeBlocksIgnoresPadding(rx1, rx2, n - 1);
      var k := Alignment * (n - 1);
      assert rx1[k .. k + FrameSize] == rx2[k .. k + FrameSize];
      assert rx1[k..][..FrameSize] == rx1[k .. k + FrameSize];
      assert rx2[k..][..FrameSize] == rx2[k .. k + FrameSize];
      DecodeIgnoresPadding(rx1[k..], rx2[k..]);
    }
  }
}
