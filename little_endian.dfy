/**
 * Bytes, fixed-width unsigned integers and the little-endian codec the page
 * decoders are built on. The reader and writer helpers stand for the
 * LittleEndianReader, LittleEndianWriter and ByteReader utilities, which are
 * given here by their contracts.
 */
module LittleEndian {
  import opened Wrappers

  type byte = b: int | 0 <= b < 0x100
  type u16 = x: int | 0 <= x < 0x1_0000
  type u32 = x: int | 0 <= x < 0x1_0000_0000
  type u64 = x: int | 0 <= x < 0x1_0000_0000_0000_0000

  /** 256 to the power `n`: one more than the largest value `n` bytes hold. */
  function Pow256(n: nat): nat {
    if n == 0 then 1 else 256 * Pow256(n - 1)
  }

  lemma Widths()
    ensures Pow256(2) == 0x1_0000
    ensures Pow256(4) == 0x1_0000_0000
    ensures Pow256(8) == 0x1_0000_0000_0000_0000
  {
  }

  /** The unsigned value of `s`, least-significant byte first. */
  function DecodeLE(s: seq<byte>): (n: nat)
    ensures n < Pow256(|s|)
  {
    if s == [] then 0 else s[0] + 256 * DecodeLE(s[1..])
  }

  /** The `width` low-order bytes of `n`, least-significant byte first. */
  function EncodeLE(n: nat, width: nat): (s: seq<byte>)
    ensures |s| == width
  {
    if width == 0 then [] else [n % 256] + EncodeLE(n / 256, width - 1)
  }

  /** Encoding a value that fits in `width` bytes and decoding it gives the value back. */
  lemma {:induction false} DecodeEncodeLE(n: nat, width: nat)
    requires n < Pow256(width)
    ensures DecodeLE(EncodeLE(n, width)) == n
  {
    if width > 0 {
      var s := EncodeLE(n, width);
      assert s[1..] == EncodeLE(n / 256, width - 1);
      DecodeEncodeLE(n / 256, width - 1);
    }
  }

  /** Decoding bytes and encoding the value at the same width gives the bytes back. */
  lemma {:induction false} EncodeDecodeLE(s: seq<byte>)
    ensures EncodeLE(DecodeLE(s), |s|) == s
  {
    if s != [] {
      var n := DecodeLE(s);
      assert n % 256 == s[0] && n / 256 == DecodeLE(s[1..]);
      EncodeDecodeLE(s[1..]);
    }
  }

  /** The unsigned little-endian integer of `width` bytes at `offset`. */
  function UIntAt(s: seq<byte>, offset: nat, width: nat): nat
    requires offset + width <= |s|
  {
    DecodeLE(s[offset..offset + width])
  }

  /** Re-encoding the integer read at `offset` gives back the bytes it was read from. */
  lemma FieldReencode(s: seq<byte>, offset: nat, width: nat)
    requires offset + width <= |s|
    ensures EncodeLE(UIntAt(s, offset, width), width) == s[offset..offset + width]
  {
    EncodeDecodeLE(s[offset..offset + width]);
  }

  /** Adjacent slices join into one. */
  lemma SliceJoin<T>(s: seq<T>, i: nat, j: nat, k: nat)
    requires i <= j <= k <= |s|
    ensures s[i..k] == s[i..j] + s[j..k]
  {
  }

  /** A value decoded at a cursor, with the cursor just past it. */
  datatype Read<+T> = Read(value: T, next: nat)

  /** LittleEndianReader.ReadUInt16 on a buffer: fails past the end of the buffer. */
  function ReadUInt16(buffer: seq<byte>, offset: nat): (r: Result<Read<u16>>)
    ensures r.Success? <==> offset + 2 <= |buffer|
    ensures r.Success? ==> r.value.next == offset + 2 && r.value.value == UIntAt(buffer, offset, 2)
  {
    if offset + 2 <= |buffer| then
      Widths();
      Success(Read(UIntAt(buffer, offset, 2), offset + 2))
    else
      Failure(OutOfRange)
  }

  /** LittleEndianReader.ReadUInt32 on a buffer: fails past the end of the buffer. */
  function ReadUInt32(buffer: seq<byte>, offset: nat): (r: Result<Read<u32>>)
    ensures r.Success? <==> offset + 4 <= |buffer|
    ensures r.Success? ==> r.value.next == offset + 4 && r.value.value == UIntAt(buffer, offset, 4)
  {
    if offset + 4 <= |buffer| then
      Widths();
      Success(Read(UIntAt(buffer, offset, 4), offset + 4))
    else
      Failure(OutOfRange)
  }

  /** LittleEndianReader.ReadUInt64 on a buffer: fails past the end of the buffer. */
  function ReadUInt64(buffer: seq<byte>, offset: nat): (r: Result<Read<u64>>)
    ensures r.Success? <==> offset + 8 <= |buffer|
    ensures r.Success? ==> r.value.next == offset + 8 && r.value.value == UIntAt(buffer, offset, 8)
  {
    if offset + 8 <= |buffer| then
      Widths();
      Success(Read(UIntAt(buffer, offset, 8), offset + 8))
    else
      Failure(OutOfRange)
  }

  /** ByteReader.ReadBytes on a buffer: a copy of `length` bytes at `offset`, failing out of range. */
  function ReadBytes(buffer: seq<byte>, offset: nat, length: nat): (r: Result<seq<byte>>)
    ensures r.Success? <==> offset + length <= |buffer|
    ensures r.Success? ==> |r.value| == length
    ensures r.Success? ==> r.value == buffer[offset..offset + length]
  {
    if offset + length <= |buffer| then Success(buffer[offset..offset + length]) else Failure(OutOfRange)
  }

  /**
   * Reading `count` bytes of a stream positioned at `position`: the bytes of
   * the file from there, cut short at the end of the file.
   */
  function ReadAt(file: seq<byte>, position: nat, count: nat): (r: seq<byte>)
    ensures |r| <= count
    ensures position + count <= |file| ==> r == file[position..position + count]
    ensures |file| <= position ==> r == []
  {
    var from := if position < |file| then position else |file|;
    var to := if position + count < |file| then position + count else |file|;
    file[from..to]
  }

  /** Reading `m` bytes and then the next `n` bytes is reading `m + n` bytes at once. */
  lemma ReadAtSplit(file: seq<byte>, position: nat, m: nat, n: nat)
    ensures ReadAt(file, position, m) + ReadAt(file, position + m, n) == ReadAt(file, position, m + n)
  {
  }

  /**
   * LittleEndianWriter.WriteUIntN into a buffer: writes the `width`-byte
   * encoding of `value` at `offset`, leaves every other byte alone and
   * advances the cursor by `width`.
   */
  method WriteUIntLE(buffer: array<byte>, offset: nat, value: nat, width: nat) returns (next: nat)
    requires offset + width <= buffer.Length
    modifies buffer
    ensures next == offset + width
    ensures buffer[..] == old(buffer[..offset]) + EncodeLE(value, width) + old(buffer[offset + width..])
  {
    var v := value;
    var i := 0;
    ghost var written: seq<byte> := [];
    while i < width
      invariant 0 <= i <= width
      invariant |written| == i
      invariant written + EncodeLE(v, width - i) == EncodeLE(value, width)
      invariant forall k :: 0 <= k < buffer.Length ==>
        buffer[k] == if offset <= k < offset + i then written[k - offset] else old(buffer[k])
    {
      assert EncodeLE(v, width - i) == [v % 256] + EncodeLE(v / 256, width - i - 1);
      buffer[offset + i] := v % 256;
      written := written + [v % 256];
      v := v / 256;
      i := i + 1;
    }
    assert buffer[..] == old(buffer[..offset]) + written + old(buffer[offset + width..]);
    next := offset + width;
  }
}
