/**
 ADTS frames (section 6.2 of ISO/IEC 13818-7) as the two parsers of the repository
 read them, and the boundary validator of AacBqToPcmCbRenderer.cpp.
 */
module Adts {
  type byte = x: int | 0 <= x < 256 witness 0

  type bytes = seq<byte>

  const HEADER_LENGTH: nat := 7
  /** The frame size information ends on byte 6, counting from 1. */
  const UP_TO_FRAMESIZE: nat := 6

  /** syncword[0] == 0xff and (syncword[1] & 0xf6) == 0xf0: bits 3 and 0 of the second byte are free. */
  predicate IsSync(b0: byte, b1: byte) {
    b0 == 0xff && b1 / 16 == 0xf && b1 / 2 % 4 == 0
  }

  /** 9 with a checksum, 7 without; the low bit of the second byte is protection_absent. */
  function HeadSize(b1: byte): nat {
    if b1 % 2 == 1 then 7 else 9
  }

  /** (h[0] & 0x3) << 11 | h[1] << 3 | h[2] >> 5 */
  function SizeField(h0: byte, h1: byte, h2: byte): nat {
    h0 % 4 * 2048 + h1 * 8 + h2 / 32
  }

  /** The size a header announces; 0 if it does not start a frame. */
  function HeaderSize(b0: byte, b1: byte, h0: byte, h1: byte, h2: byte): (n: nat)
    ensures n == 0 || 7 <= n < 8192
  {
    var n := SizeField(h0, h1, h2);
    if !IsSync(b0, b1) || HeadSize(b1) > n then 0 else n
  }

  /** The size announced by the first six bytes. */
  function FrameSize(h: bytes): nat
    requires |h| >= UP_TO_FRAMESIZE
  {
    HeaderSize(h[0], h[1], h[3], h[4], h[5])
  }

  /** getAdtsFrameSize: bytes beyond the end of the data are not needed, but a seventh byte must be there. */
  function FrameSizeAt(data: bytes, offset: nat): (n: nat)
    ensures n == 0 || 7 <= n < 8192
  {
    if offset + UP_TO_FRAMESIZE < |data|
    then HeaderSize(data[offset], data[offset + 1], data[offset + 3], data[offset + 4], data[offset + 5]) else 0
  }

  // What a stream of frames is

  /** A frame is as long as it says, and has room for its header. */
  predicate IsFrame(f: bytes) {
    && |f| >= HEADER_LENGTH && IsSync(f[0], f[1])
    && SizeField(f[3], f[4], f[5]) == |f| && HeadSize(f[1]) <= |f|
  }

  // The header as numbers

  function Be16(x: byte, y: byte): nat {
    x * 256 + y
  }

  function Be24(x: byte, y: byte, z: byte): nat {
    (x * 256 + y) * 256 + z
  }

  /** The first sixteen bits: twelve ones, an ID bit, two zeros, and the bit that is clear when there is a checksum. */
  lemma SyncIff(b0: byte, b1: byte)
    ensures IsSync(b0, b1) <==> Be16(b0, b1) in {0xFFF0, 0xFFF1, 0xFFF8, 0xFFF9}
    ensures IsSync(b0, b1) ==> (HeadSize(b1) == 9 <==> Be16(b0, b1) in {0xFFF0, 0xFFF8})
  {
    if Be16(b0, b1) in {0xFFF0, 0xFFF1, 0xFFF8, 0xFFF9} {
      assert b0 == 0xFF && b1 in {0xF0, 0xF1, 0xF8, 0xF9};
    }
    if IsSync(b0, b1) {
      assert b1 == 0xF0 + b1 % 16 && b1 % 16 / 2 % 4 == 0;
    }
  }

  /** The thirteen bits 26 to 14 of the header, in bytes 3 to 5 read as one number. */
  lemma SizeFieldIs(h0: byte, h1: byte, h2: byte)
    ensures SizeField(h0, h1, h2) == Be24(h0, h1, h2) / 32 % 8192
  {
    var high, low := h0 / 4, h0 % 4 * 2048 + h1 * 8 + h2 / 32;
    assert Be24(h0, h1, h2) == 32 * (8192 * high + low) + h2 % 32;
    assert Be24(h0, h1, h2) / 32 == 8192 * high + low;
  }

  /** A size put into a header, between any other bits, is read back. */
  lemma SizeReadsBack(n: nat, before: nat, after: nat)
    requires n < 8192 && before < 64 && after < 32
    ensures SizeField(before * 4 + n / 2048, n / 8 % 256, n % 8 * 32 + after) == n
  {
    assert n == n / 8 * 8 + n % 8 && n / 8 == n / 2048 * 256 + n / 8 % 256;
  }

  /** A frame by its bytes. */
  lemma FrameIff(f: bytes)
    ensures IsFrame(f)
       <==> && |f| >= 7 && Be16(f[0], f[1]) in {0xFFF0, 0xFFF1, 0xFFF8, 0xFFF9}
            && Be24(f[3], f[4], f[5]) / 32 % 8192 == |f|
            && (Be16(f[0], f[1]) in {0xFFF0, 0xFFF8} ==> |f| >= 9)
  {
    if |f| >= 7 {
      SyncIff(f[0], f[1]);
      SizeFieldIs(f[3], f[4], f[5]);
    }
  }

  /** What the parser answers, by the bytes at the place. */
  lemma FrameSizeAtIs(data: bytes, at: nat, n: nat)
    requires n == FrameSizeAt(data, at)
    ensures n > 0 ==>
              && at + 6 < |data| && Be16(data[at], data[at + 1]) in {0xFFF0, 0xFFF1, 0xFFF8, 0xFFF9}
              && n == Be24(data[at + 3], data[at + 4], data[at + 5]) / 32 % 8192
              && n >= if Be16(data[at], data[at + 1]) in {0xFFF0, 0xFFF8} then 9 else 7
    ensures n == 0 ==>
              || |data| <= at + 6 || Be16(data[at], data[at + 1]) !in {0xFFF0, 0xFFF1, 0xFFF8, 0xFFF9}
              || Be24(data[at + 3], data[at + 4], data[at + 5]) / 32 % 8192
                 < if Be16(data[at], data[at + 1]) in {0xFFF0, 0xFFF8} then 9 else 7
  {
    if at + 6 < |data| {
      SyncIff(data[at], data[at + 1]);
      SizeFieldIs(data[at + 3], data[at + 4], data[at + 5]);
    }
  }

  /** Any 371 bytes from FF F1 50 80 2E 7F FC on are a frame. */
  lemma FrameOf371(f: bytes)
    requires |f| >= 7 && f[..7] == [0xFF, 0xF1, 0x50, 0x80, 0x2E, 0x7F, 0xFC]
    ensures IsFrame(f) <==> |f| == 371
  {
    assert f[0] == f[..7][0] && f[1] == f[..7][1] && f[3] == f[..7][3] && f[4] == f[..7][4] && f[5] == f[..7][5];
  }

  // Streams

  function Concat(frames: seq<bytes>): bytes {
    if frames == [] then [] else frames[0] + Concat(frames[1..])
  }

  predicate AreFrames(frames: seq<bytes>) {
    forall k :: 0 <= k < |frames| ==> IsFrame(frames[k])
  }

  predicate Splits(data: bytes, frames: seq<bytes>) {
    AreFrames(frames) && data == Concat(frames)
  }

  ghost predicate IsAdts(data: bytes) {
    exists frames :: Splits(data, frames)
  }

  // Reading frames off the front

  /** Frame follows frame to the very end. */
  predicate Aligned(data: bytes)
    decreases |data|
  {
    data == [] ||
    (var n := FrameSizeAt(data, 0);
     0 < n <= |data| && Aligned(data[n..]))
  }

  function Frames(data: bytes): seq<bytes>
    requires Aligned(data)
    decreases |data|
  {
    if data == [] then [] else
      var n := FrameSizeAt(data, 0);
      [data[..n]] + Frames(data[n..])
  }

  lemma FirstFrame(data: bytes, n: nat)
    requires 0 < n <= |data|
    ensures IsFrame(data[..n]) <==> FrameSizeAt(data, 0) == n
  {
  }

  lemma {:induction false} FramesSplit(data: bytes)
    requires Aligned(data)
    ensures Splits(data, Frames(data))
    decreases |data|
  {
    if data != [] {
      var n := FrameSizeAt(data, 0);
      FirstFrame(data, n);
      FramesSplit(data[n..]);
      assert Frames(data)[1..] == Frames(data[n..]);
      assert data == data[..n] + data[n..];
    }
  }

  /** Data that splits into frames does so in one way only. */
  lemma {:induction false} SplitUnique(data: bytes, frames: seq<bytes>)
    requires Splits(data, frames)
    ensures Aligned(data) && frames == Frames(data)
    decreases |frames|
  {
    if frames != [] {
      var n, rest := |frames[0]|, Concat(frames[1..]);
      assert data[..n] == frames[0] && data[n..] == rest;
      FirstFrame(data, n);
      SplitUnique(rest, frames[1..]);
      assert frames == [frames[0]] + frames[1..];
    }
  }

  /** The validator's loop condition means what it should: alignment is splitting into frames. */
  lemma AlignedIff(data: bytes)
    ensures Aligned(data) <==> IsAdts(data)
  {
    if Aligned(data) {
      FramesSplit(data);
    }
    if frames :| Splits(data, frames) {
      SplitUnique(data, frames);
    }
  }

  // The validator

  datatype Verdict = Success | ParameterInvalid | ContentCorrupted

  lemma SuffixStep(data: bytes, offset: nat)
    requires offset < |data|
    ensures FrameSizeAt(data, offset) == FrameSizeAt(data[offset..], 0)
    ensures var n := FrameSizeAt(data, offset);
      Aligned(data[offset..]) <==> 0 < n && offset + n <= |data| && Aligned(data[offset + n..])
  {
    var rest, n := data[offset..], FrameSizeAt(data, offset);
    if 0 < n && offset + n <= |data| {
      assert rest[n..] == data[offset + n..];
    }
  }

  /**
   validateBufferStartEndOnFrameBoundaries: success exactly for non-empty data that
   splits into well-formed frames.
   */
  method Validate(data: array?<byte>, size: nat) returns (r: Verdict)
    requires data != null ==> size <= data.Length
    ensures r.ParameterInvalid? <==> data == null || size == 0
    ensures r.Success? <==> data != null && size > 0 && IsAdts(data[..size])
  {
    if data == null || size == 0 {
      return ParameterInvalid;
    }
    ghost var all := data[..size];
    AlignedIff(all);
    var offset: nat := 0;
    assert all[0..] == all;
    while offset < size
      invariant offset <= size
      invariant Aligned(all) <==> Aligned(all[offset..])
    {
      SuffixStep(all, offset);
      var frameSize := GetAdtsFrameSize(data, offset, size);
      if frameSize == 0 {
        return ContentCorrupted;
      }
      offset := offset + frameSize;
      if offset > size {
        return ContentCorrupted;
      }
    }
    NothingLeft(all, offset);
    return Success;
  }

  lemma NothingLeft(data: bytes, offset: nat)
    requires offset == |data|
    ensures Aligned(data[offset..])
  {
  }

  method GetAdtsFrameSize(data: array<byte>, offset: nat, size: nat) returns (frameSize: nat)
    requires size <= data.Length
    ensures frameSize == FrameSizeAt(data[..size], offset)
  {
    if !(offset + UP_TO_FRAMESIZE < size) {
      return 0;
    }
    if data[offset] != 0xff || !(data[offset + 1] / 16 == 0xf && data[offset + 1] / 2 % 4 == 0) {
      return 0;
    }
    var h0: int, h1: int, h2: int := data[offset + 3], data[offset + 4], data[offset + 5];
    frameSize := h0 % 4 * 2048 + h1 * 8 + h2 / 32;
    var headSize := if data[offset + 1] % 2 == 1 then 7 else 9;
    if headSize > frameSize {
      return 0;
    }
  }

  // Payloads

  /** What the extractor delivers of a frame: all but the first seven bytes. */
  function Payload(f: bytes): bytes
    requires |f| >= HEADER_LENGTH
  {
    f[HEADER_LENGTH..]
  }

  function Payloads(frames: seq<bytes>): seq<bytes>
    requires AreFrames(frames)
  {
    seq(|frames|, k requires 0 <= k < |frames| => Payload(frames[k]))
  }

  /** The payloads of all the frames of aligned data. */
  function DataPayloads(data: bytes): seq<bytes>
    requires Aligned(data)
    decreases |data|
  {
    if data == [] then [] else
      var n := FrameSizeAt(data, 0);
      [data[HEADER_LENGTH..n]] + DataPayloads(data[n..])
  }

  lemma {:induction false} DataPayloadsAre(data: bytes, frames: seq<bytes>)
    requires Splits(data, frames)
    ensures Aligned(data) && DataPayloads(data) == Payloads(frames)
    decreases |frames|
  {
    SplitUnique(data, frames);
    if frames != [] {
      var n := FrameSizeAt(data, 0);
      assert frames[0] == data[..n] && frames[1..] == Frames(data[n..]);
      FramesSplit(data[n..]);
      DataPayloadsAre(data[n..], frames[1..]);
      assert Payload(frames[0]) == data[HEADER_LENGTH..n];
      assert Payloads(frames) == [Payload(frames[0])] + Payloads(frames[1..]);
    }
  }
}
