/** upstream/lcm-java/lcm/util/BufferedRandomAccessFile.java: one aligned block of
    the file is cached, with write-back, in front of a RandomAccessFile. */
module BufferedFile {
  import opened Buffers
  import opened Bytes
  import opened Wrappers

  const BUFFER_SIZE := 32768

  // ----- the plain file it must behave like -----

  /** A byte array and a cursor. */
  datatype File = File(bytes: seq<byte>, pos: nat)

  function Zeros(n: nat): seq<byte> { seq(n, _ => 0) }

  /** Writing one byte at the cursor; a gap past the end reads as zeros. */
  function PutByte(f: File, v: byte): File {
    if f.pos < |f.bytes| then File(f.bytes[f.pos := v], f.pos + 1)
    else File(f.bytes + Zeros(f.pos - |f.bytes|) + [v], f.pos + 1)
  }

  function PutBytes(f: File, data: seq<byte>): File {
    if data == [] then f else PutByte(PutBytes(f, data[..|data| - 1]), data[|data| - 1])
  }

  /** How many of n bytes can be read at the cursor. */
  function Available(f: File, n: nat): nat {
    if f.pos + n <= |f.bytes| then n else if f.pos <= |f.bytes| then |f.bytes| - f.pos else 0
  }

  /** Bytes d with b laid over them from offset p on. */
  function Overlay(d: seq<byte>, p: nat, b: seq<byte>): seq<byte>
    requires p <= |d|
  {
    d[..p] + b + (if p + |b| < |d| then d[p + |b|..] else [])
  }

  lemma OverlayTwice(d: seq<byte>, p: nat, b: seq<byte>)
    requires p <= |d|
    ensures Overlay(Overlay(d, p, b), p, b) == Overlay(d, p, b)
  {}

  lemma OverlayOwn(d: seq<byte>, p: nat, n: nat)
    requires p + n <= |d|
    ensures Overlay(d, p, d[p..p + n]) == d
  {}

  lemma OverlayUpdate(d: seq<byte>, p: nat, b: seq<byte>, i: nat, v: byte)
    requires p <= |d| && i < |b|
    ensures Overlay(d, p, b[i := v]) == Overlay(d, p, b)[p + i := v]
  {}

  lemma OverlayExtend(d: seq<byte>, p: nat, b: seq<byte>, v: byte)
    requires p <= |d| <= p + |b|
    ensures Overlay(d, p, b + [v]) == Overlay(d, p, b) + [v]
  {}

  lemma OverlayInside(d: seq<byte>, p: nat, b: seq<byte>, i: nat, n: nat)
    requires p <= |d| && i + n <= |b|
    ensures p + i + n <= |Overlay(d, p, b)| && Overlay(d, p, b)[p + i..p + i + n] == b[i..i + n]
  {}

  lemma SpliceMore(b: seq<byte>, at: nat, src: seq<byte>, p: nat, n: nat, m: nat)
    requires p + n + m <= |src| && at + n + m <= |b|
    ensures Splice(Splice(b, at, src[p..p + n]), at + n, src[p + n..p + n + m]) == Splice(b, at, src[p..p + n + m])
  {
    SpliceTwice(b, at, src[p..p + n], src[p + n..p + n + m]);
    assert src[p..p + n] + src[p + n..p + n + m] == src[p..p + n + m];
  }

  /** System.arraycopy between different arrays. */
  method ArrayCopy(src: array<byte>, from: nat, dst: array<byte>, at: nat, n: nat)
    requires src != dst && from + n <= src.Length && at + n <= dst.Length
    modifies dst
    ensures dst[..] == Splice(old(dst[..]), at, src[from..from + n])
  {
    ghost var was := dst[..];
    for i := 0 to n
      invariant forall k :: 0 <= k < dst.Length ==> dst[k] == if at <= k < at + i then src[from + (k - at)] else was[k]
    {
      dst[at + i] := src[from + i];
    }
  }

  /** java.io.RandomAccessFile, as far as it is used. */
  class RandomAccessFile {
    var data: seq<byte>
    var pos: nat

    constructor (d: seq<byte>)
      ensures data == d && pos == 0
    {
      data, pos := d, 0;
    }

    method Seek(p: nat)
      modifies this`pos
      ensures pos == p
    {
      pos := p;
    }

    method Write(b: array<byte>, length: nat)
      requires length <= b.Length && pos <= |data|
      modifies this
      ensures data == Overlay(old(data), old(pos), b[..length]) && pos == old(pos) + length
    {
      data := Overlay(data, pos, b[..length]);
      pos := pos + length;
    }

    /** The bytes asked for must be there, or the Java class throws. */
    method ReadFully(b: array<byte>, length: nat)
      requires length <= b.Length && pos + length <= |data|
      modifies this`pos, b
      ensures b[..length] == data[old(pos)..old(pos) + length] && pos == old(pos) + length
    {
      for i := 0 to length
        invariant pos == old(pos) && pos + length <= |data|
        invariant b[..i] == data[pos..pos + i]
      {
        b[i] := data[pos + i];
      }
      pos := pos + length;
    }
  }

  /** How readFully ends: normally or with an exception. */
  datatype ReadEnd = Full | EndOfFile | OutOfBounds

  /** b0 << 24 | b1 << 16 | b2 << 8 | b3 in 32-bit arithmetic. */
  function JoinInt(b0: byte, b1: byte, b2: byte, b3: byte): (r: int)
    ensures r == DecodeInt([b0, b1, b2, b3])
  {
    FourDigits(b0, b1, b2, b3);
    Pow256Values();
    var u: int := b0 * 0x100_0000 + b1 * 0x1_0000 + b2 * 0x100 + b3 as int;
    if u < 0x8000_0000 then u else u - 0x1_0000_0000
  }

  lemma Put4(f: File, a: byte, b: byte, c: byte, d: byte)
    ensures PutBytes(f, [a, b, c, d]) == PutByte(PutByte(PutByte(PutByte(f, a), b), c), d)
  {
    assert [a, b, c, d][..3] == [a, b, c] && [a, b, c][..2] == [a, b] && [a, b][..1] == [a] && [a][..0] == [];
    assert PutBytes(f, [a]) == PutByte(f, a);
    assert PutBytes(f, [a, b]) == PutByte(PutByte(f, a), b);
    assert PutBytes(f, [a, b, c]) == PutByte(PutByte(PutByte(f, a), b), c);
  }

  /** What was written is there, the bytes around it are as before, and a gap is zeros. */
  lemma {:induction false} PutBytesExactly(f: File, data: seq<byte>)
    requires data != []
    ensures var (r, end) := (PutBytes(f, data), f.pos + |data|);
      && r.pos == end && |r.bytes| == (if end < |f.bytes| then |f.bytes| else end)
      && (forall k :: 0 <= k < |data| ==> r.bytes[f.pos + k] == data[k])
      && (forall k :: 0 <= k < |f.bytes| && (k < f.pos || end <= k) ==> r.bytes[k] == f.bytes[k])
      && (forall k :: |f.bytes| <= k < f.pos ==> r.bytes[k] == 0)
    decreases |data|
  {
    var front := data[..|data| - 1];
    if front != [] { PutBytesExactly(f, front); }
    assert PutBytes(f, front).pos == f.pos + |front|;
  }

  lemma {:induction false} PutBytesConcat(f: File, a: seq<byte>, b: seq<byte>)
    ensures PutBytes(f, a + b) == PutBytes(PutBytes(f, a), b)
    decreases |b|
  {
    if b == [] { assert a + b == a; }
    else {
      assert (a + b)[..|a + b| - 1] == a + b[..|b| - 1];
      PutBytesConcat(f, a, b[..|b| - 1]);
    }
  }

  class BufferedRandomAccessFile {
    const raf: RandomAccessFile
    const buffer: array<byte>
    var bufferDirty: bool
    var bufferOffset: int
    var bufferLength: int
    var bufferPosition: int
    var fileLength: int

    /** The bytes of the file: what is on disk under what is in the buffer. */
    ghost function Contents(): seq<byte>
      reads this, raf, buffer
    {
      if 0 <= bufferOffset <= |raf.data| && 0 <= bufferLength <= buffer.Length
      then Overlay(raf.data, bufferOffset, buffer[..bufferLength])
      else raf.data
    }

    ghost predicate Valid()
      reads this, raf, buffer
    {
      && buffer.Length == BUFFER_SIZE
      && 0 <= bufferOffset && bufferOffset % BUFFER_SIZE == 0
      && 0 <= fileLength
      && bufferLength == BlockLength(fileLength, bufferOffset)
      && |Contents()| == fileLength
      && bufferLength <= buffer.Length
      && (!bufferDirty ==> Contents() == raf.data)
      && (bufferOffset > |raf.data| ==> bufferLength == 0 && !bufferDirty)
      && 0 <= bufferPosition <= BUFFER_SIZE
      && (bufferPosition == BUFFER_SIZE ==> Pos() <= fileLength)
    }

    /** getFilePointer */
    function Pos(): int
      reads this
    {
      bufferOffset + bufferPosition
    }

    ghost function View(): File
      requires Valid()
      reads this, raf, buffer
    {
      File(Contents(), Pos())
    }

    lemma Sizes()
      requires Valid()
      ensures |Contents()| == fileLength && 0 <= Pos()
    {}

    /** Bytes of the block at `offset` that lie inside the file. */
    function BlockLength(length: int, offset: int): int {
      if length - offset < 0 then 0 else if length - offset < BUFFER_SIZE then length - offset else BUFFER_SIZE
    }

    constructor (file: RandomAccessFile)
      ensures Valid() && View() == File(old(file.data), 0)
      ensures raf == file && file.data == old(file.data) && fresh(buffer)
      modifies file`pos
    {
      raf := file;
      buffer := new byte[BUFFER_SIZE];
      bufferDirty, bufferOffset, bufferLength, bufferPosition := false, -1, -1, -1;
      fileLength := |file.data|;
      new;
      FillBuffer(0, 0);
    }

    /** The second half of bufferSeek: read the block at newOffset. */
    method FillBuffer(newOffset: nat, seekOffset: nat)
      requires buffer.Length == BUFFER_SIZE && !bufferDirty && fileLength == |raf.data|
      requires newOffset == seekOffset - seekOffset % BUFFER_SIZE
      modifies this`bufferOffset, this`bufferLength, this`bufferPosition, raf`pos, buffer
      ensures Valid() && View() == File(raf.data, seekOffset) && bufferOffset == newOffset
    {
      bufferOffset := newOffset;
      bufferLength := BlockLength(fileLength, bufferOffset);
      bufferPosition := seekOffset - bufferOffset;
      raf.Seek(bufferOffset);
      if bufferLength > 0 {
        OverlayOwn(raf.data, bufferOffset, bufferLength);
        raf.ReadFully(buffer, bufferLength);
      } else if bufferOffset <= |raf.data| {
        OverlayOwn(raf.data, bufferOffset, 0);
      }
    }

    method FlushBuffer()
      requires Valid()
      modifies this`bufferDirty, raf
      ensures Valid() && View() == old(View()) && !bufferDirty
      ensures raf.data == Contents()
    {
      if !bufferDirty { return; }
      OverlayTwice(raf.data, bufferOffset, buffer[..bufferLength]);
      raf.Seek(bufferOffset);
      raf.Write(buffer, bufferLength);
      bufferDirty := false;
    }

    method BufferSeek(seekOffset: nat)
      requires Valid()
      modifies this, raf, buffer
      ensures Valid() && View() == old(View()).(pos := seekOffset)
      ensures fileLength == old(fileLength) && !bufferDirty && bufferPosition < BUFFER_SIZE
    {
      FlushBuffer();
      var newOffset := seekOffset - seekOffset % BUFFER_SIZE;
      if newOffset == bufferOffset {
        bufferPosition := seekOffset - bufferOffset;
        return;
      }
      FillBuffer(newOffset, seekOffset);
    }

    method Seek(pos: nat)
      requires Valid()
      modifies this, raf, buffer
      ensures Valid() && View() == old(View()).(pos := pos)
    {
      BufferSeek(pos);
    }

    method Close()
      requires Valid()
      modifies this`bufferDirty, raf
      ensures Valid() && View() == old(View()) && raf.data == old(Contents())
    {
      FlushBuffer();
    }

    /** The byte at the cursor, or the EOFException. */
    method Read() returns (r: Option<byte>)
      requires Valid()
      modifies this, raf, buffer
      ensures Valid()
      ensures if old(Pos()) < |old(Contents())|
        then r == Some(old(Contents())[old(Pos())]) && View() == old(View()).(pos := old(Pos()) + 1)
        else r == None && View() == old(View())
      ensures Contents() == old(Contents()) && fileLength == |Contents()|
      ensures Pos() == if r == None then old(Pos()) else old(Pos()) + 1
    {
      if bufferOffset + bufferPosition >= fileLength { return None; }
      if bufferPosition >= bufferLength { BufferSeek(bufferOffset + bufferPosition); }
      var v := TakeByte();
      return Some(v);
    }

    /** return buffer[bufferPosition++] */
    method TakeByte() returns (v: byte)
      requires Valid() && bufferPosition < bufferLength
      modifies this`bufferPosition
      ensures Valid() && old(Pos()) < |Contents()| && v == Contents()[old(Pos())]
      ensures Contents() == old(Contents()) && Pos() == old(Pos()) + 1
    {
      v := buffer[bufferPosition];
      bufferPosition := bufferPosition + 1;
    }

    /** Copies length bytes to b, or as many as there are before the EOFException. With the
        cursor past the end of the file System.arraycopy is given a negative length, unless
        the cursor is at the start of a block. */
    method ReadFully(b: array<byte>, offset: nat, length: nat) returns (end: ReadEnd)
      requires Valid() && offset + length <= b.Length && b != buffer
      modifies this, raf, buffer, b
      ensures Valid()
      ensures old(Pos()) <= |old(Contents())| ==>
        var n := Available(old(View()), length);
        && end == (if n == length then Full else EndOfFile)
        && View() == old(View()).(pos := old(Pos()) + n)
        && b[..] == Splice(old(b[..]), offset, old(Contents())[old(Pos())..old(Pos()) + n])
      ensures old(Pos()) > |old(Contents())| ==>
        && end == (if length == 0 then Full else if old(Pos()) % BUFFER_SIZE == 0 then EndOfFile else OutOfBounds)
        && View() == old(View()) && b[..] == old(b[..])
    {
      hide Overlay; hide Splice;
      ghost var f, was := View(), b[..];
      SpliceNothing(was, offset);
      assert f.pos <= |f.bytes| ==> f.bytes[f.pos..f.pos + 0] == [];
      var at, left := offset, length;
      ghost var done := 0;
      while left > 0
        invariant 0 <= left && at == offset + done && done + left == length
        invariant Valid() && View() == f.(pos := f.pos + done)
        invariant f.pos <= |f.bytes| ==>
          f.pos + done <= |f.bytes| && b[..] == Splice(was, offset, f.bytes[f.pos..f.pos + done])
        invariant f.pos > |f.bytes| ==> done == 0 && b[..] == was
        decreases left, if bufferPosition < bufferLength then 0 else 1
      {
        WhereInBlock();
        var bufferAvailable := bufferLength - bufferPosition;
        var thiscopy := if bufferAvailable < left then bufferAvailable else left;
        if thiscopy == 0 {
          var eof := NextBlock();
          if eof { return EndOfFile; }
        } else if thiscopy < 0 {
          return OutOfBounds;   // IndexOutOfBoundsException
        } else {
          CopyOut(b, at, thiscopy);
          SpliceMore(was, offset, f.bytes, f.pos, done, thiscopy);
          at := at + thiscopy;
          left := left - thiscopy;
          done := done + thiscopy;
        }
      }
      return Full;
    }

    /** Past the end of the file the buffer has less than nothing left, or nothing at the
        start of a block. */
    lemma WhereInBlock()
      requires Valid()
      ensures Pos() <= fileLength ==> bufferPosition <= bufferLength
      ensures Pos() > fileLength ==>
        bufferLength <= bufferPosition && (bufferPosition == bufferLength <==> Pos() % BUFFER_SIZE == 0)
    {}

    /** The buffer is used up: on to the next block, unless the file ends here. */
    method NextBlock() returns (eof: bool)
      requires Valid() && bufferPosition == bufferLength
      modifies this, raf, buffer
      ensures Valid() && View() == old(View())
      ensures eof == (Pos() >= fileLength) && (!eof ==> bufferPosition < bufferLength)
    {
      FlushBuffer();
      if bufferOffset + bufferPosition >= fileLength { return true; }
      BufferSeek(bufferOffset + bufferLength);
      return false;
    }

    method CopyOut(b: array<byte>, at: nat, n: nat)
      requires Valid() && 0 < n && bufferPosition + n <= bufferLength && at + n <= b.Length && b != buffer
      modifies this`bufferPosition, b
      ensures Valid() && View() == old(View()).(pos := old(Pos()) + n)
      ensures old(Pos()) + n <= |Contents()|
      ensures b[..] == Splice(old(b[..]), at, Contents()[old(Pos())..old(Pos()) + n])
    {
      BlockSlice(bufferPosition, n);
      ArrayCopy(buffer, bufferPosition, b, at, n);
      bufferPosition := bufferPosition + n;
    }

    /** What lies in the buffer is what the file holds there. */
    lemma BlockSlice(p: nat, n: nat)
      requires Valid() && 0 < n && p + n <= bufferLength
      ensures bufferOffset + p + n <= |Contents()|
      ensures Contents()[bufferOffset + p..bufferOffset + p + n] == buffer[p..p + n]
    {
      OverlayInside(raf.data, bufferOffset, buffer[..bufferLength], p, n);
      assert buffer[..bufferLength][p..p + n] == buffer[p..p + n];
    }

    /** Writing agrees with the plain file exactly when the cursor is not past the
        end; past the end the length already comes out wrong. */
    method Write(v: byte)
      requires Valid()
      modifies this, raf, buffer
      ensures fileLength == |PutByte(old(View()), v).bytes| <==> old(Pos()) <= old(fileLength)
      ensures old(Pos()) <= old(fileLength) ==> Valid() && View() == PutByte(old(View()), v) && Pos() <= fileLength
      decreases if bufferPosition < bufferLength || bufferLength < BUFFER_SIZE then 0 else 1
    {
      if bufferPosition < bufferLength {
        WriteInside(v);
      } else if bufferLength < BUFFER_SIZE {
        WriteAtEnd(v);
      } else {
        bufferDirty := true;
        FlushBuffer();
        BufferSeek(bufferOffset + bufferPosition);
        Write(v);
      }
    }

    method WriteInside(v: byte)
      requires Valid() && bufferPosition < bufferLength
      modifies this`bufferDirty, this`bufferPosition, buffer
      ensures Valid() && View() == PutByte(old(View()), v)
    {
      bufferDirty := true;
      OverlayUpdate(raf.data, bufferOffset, buffer[..bufferLength], bufferPosition, v);
      ghost var b := buffer[..bufferLength];
      buffer[bufferPosition] := v;
      assert buffer[..bufferLength] == b[bufferPosition := v];
      bufferPosition := bufferPosition + 1;
    }

    method WriteAtEnd(v: byte)
      requires Valid() && bufferLength <= bufferPosition && bufferLength < BUFFER_SIZE
      modifies this, buffer
      ensures fileLength == old(fileLength) + 1
      ensures old(Pos()) <= old(fileLength) ==> Valid() && View() == PutByte(old(View()), v)
    {
      bufferDirty := true;
      ghost var b := buffer[..bufferLength];
      if Pos() <= fileLength { OverlayExtend(raf.data, bufferOffset, b, v); }
      buffer[bufferPosition] := v;
      assert Pos() <= fileLength ==> buffer[..bufferLength + 1] == b + [v];
      bufferPosition := bufferPosition + 1;
      bufferLength := bufferLength + 1;
      fileLength := fileLength + 1;
    }

    /** writeInt and writeLong: the bytes from the top down. */
    method WriteInt(v: int)
      requires Valid() && Pos() <= fileLength
      modifies this, raf, buffer
      ensures Valid() && View() == PutBytes(old(View()), EncodeInt(v, 4)) && Pos() <= fileLength
    {
      FourBytes(v);
      Write4(v / 0x100_0000 % 256, v / 0x1_0000 % 256, v / 0x100 % 256, v % 256);
    }

    method WriteLong(v: int)
      requires Valid() && Pos() <= fileLength
      modifies this, raf, buffer
      ensures Valid() && View() == PutBytes(old(View()), EncodeInt(v, 8)) && Pos() <= fileLength
    {
      ghost var f := View();
      var a, b := v / 0x100_0000_0000_0000 % 256, v / 0x1_0000_0000_0000 % 256;
      var c, d := v / 0x100_0000_0000 % 256, v / 0x1_0000_0000 % 256;
      var p, q, r, s := v / 0x100_0000 % 256, v / 0x1_0000 % 256, v / 0x100 % 256, v % 256;
      EightBytes(v);
      PutBytesConcat(f, [a, b, c, d], [p, q, r, s]);
      hide Overlay; hide EncodeInt; hide PutBytes;
      Write4(a, b, c, d);
      Write4(p, q, r, s);
    }

    method Write4(a: byte, b: byte, c: byte, d: byte)
      requires Valid() && Pos() <= fileLength
      modifies this, raf, buffer
      ensures Valid() && View() == PutBytes(old(View()), [a, b, c, d]) && Pos() <= fileLength
    {
      Put4(View(), a, b, c, d);
      hide Overlay;
      Write(a);
      Write(b);
      Write(c);
      Write(d);
    }

    /** write(byte[], int, int) */
    method WriteBytes(src: seq<byte>)
      requires Valid() && Pos() <= fileLength
      modifies this, raf, buffer
      ensures Valid() && View() == PutBytes(old(View()), src) && Pos() <= fileLength
    {
      hide Overlay; hide PutByte;
      ghost var f := View();
      for i := 0 to |src|
        invariant Valid() && Pos() <= fileLength && View() == PutBytes(f, src[..i])
      {
        Write(src[i]);
        assert src[..i + 1][..i] == src[..i];
      }
      assert src[..|src|] == src;
    }

    /** readInt; an end of file leaves the cursor at the end, or where it was behind it. */
    method ReadInt() returns (r: Option<int>)
      requires Valid()
      modifies this, raf, buffer
      ensures Valid() && Contents() == old(Contents())
      ensures if old(Pos()) + 4 <= |Contents()|
        then r == Some(DecodeInt(Contents()[old(Pos())..old(Pos()) + 4])) && Pos() == old(Pos()) + 4
        else r == None && Pos() == if old(Pos()) <= fileLength then fileLength else old(Pos())
    {
      hide Overlay; hide FromBigEndian; hide Pow256; hide JoinInt; hide DecodeInt; hide Valid; hide Contents;
      Sizes();
      ghost var f := View();
      var b0 := Read();
      if b0 == None { return None; }
      var b1 := Read();
      if b1 == None { return None; }
      var b2 := Read();
      if b2 == None { return None; }
      var b3 := Read();
      if b3 == None { return None; }
      assert f.bytes[f.pos..f.pos + 4] == [b0.value, b1.value, b2.value, b3.value];
      r := Some(JoinInt(b0.value, b1.value, b2.value, b3.value));
    }

    /** readLong: the high half, then the low half without its sign. */
    method ReadLong() returns (r: Option<int>)
      requires Valid()
      modifies this, raf, buffer
      ensures Valid() && Contents() == old(Contents())
      ensures if old(Pos()) + 8 <= |Contents()|
        then r == Some(DecodeInt(Contents()[old(Pos())..old(Pos()) + 8])) && Pos() == old(Pos()) + 8
        else r == None && Pos() == if old(Pos()) <= fileLength then fileLength else old(Pos())
    {
      hide Overlay; hide DecodeInt; hide FromBigEndian;
      ghost var f := View();
      var high := ReadInt();
      if high == None { return None; }
      var low := ReadInt();
      if low == None { return None; }
      ghost var hi, lo := f.bytes[f.pos..f.pos + 4], f.bytes[f.pos + 4..f.pos + 8];
      assert hi + lo == f.bytes[f.pos..f.pos + 8];
      DecodeLong(hi, lo);
      r := Some(high.value * 0x1_0000_0000 + if low.value < 0 then low.value + 0x1_0000_0000 else low.value);
    }
  }

  // ----- whole runs -----

  datatype Op = SeekTo(pos: nat) | ReadOne | ReadMany(n: nat) | WriteOne(v: byte)
  datatype Reply = Done | One(v: byte) | Eof | Many(data: seq<byte>, eof: bool)

  /** One operation on the plain file. */
  function FileOp(f: File, op: Op): (File, Reply) {
    match op
    case SeekTo(p) => (f.(pos := p), Done)
    case ReadOne => if f.pos < |f.bytes| then (f.(pos := f.pos + 1), One(f.bytes[f.pos])) else (f, Eof)
    case ReadMany(n) =>
      var k := Available(f, n);
      if f.pos + k > |f.bytes| then (f, Many([], n != 0))
      else (f.(pos := f.pos + k), Many(f.bytes[f.pos..f.pos + k], k != n))
    case WriteOne(v) => (PutByte(f, v), Done)
  }

  function FileRun(f: File, ops: seq<Op>): (File, seq<Reply>) {
    if ops == [] then (f, [])
    else
      var (f1, replies) := FileRun(f, ops[..|ops| - 1]);
      var (f2, reply) := FileOp(f1, ops[|ops| - 1]);
      (f2, replies + [reply])
  }

  /** Writes and bulk reads need a cursor that is not past the end of the file. */
  predicate Allowed(f: File, op: Op) {
    f.pos <= |f.bytes| || (!op.WriteOne? && (op.ReadMany? && op.n > 0 ==> f.pos % BUFFER_SIZE == 0))
  }

  /** Each operation of the run is allowed in the file as it then is; seeks go anywhere. */
  predicate AllAllowed(f: File, ops: seq<Op>) {
    ops == [] || (AllAllowed(f, ops[..|ops| - 1]) && Allowed(FileRun(f, ops[..|ops| - 1]).0, ops[|ops| - 1]))
  }

  lemma ReadsExactly(f: File, data: seq<byte>)
    requires f.pos + |data| <= |f.bytes| && forall k :: 0 <= k < |data| ==> f.bytes[f.pos + k] == data[k]
    ensures FileOp(f, ReadMany(|data|)) == (f.(pos := f.pos + |data|), Many(data, false))
  {
    assert f.bytes[f.pos..f.pos + |data|] == data;
  }

  /** What was written can be read back. */
  lemma ReadsBack(f: File, data: seq<byte>)
    requires data != []
    ensures var r := PutBytes(f, data); FileOp(r.(pos := f.pos), ReadMany(|data|)) == (r, Many(data, false))
  {
    hide FileOp; hide PutBytes;
    PutBytesExactly(f, data);
    ReadsExactly(PutBytes(f, data).(pos := f.pos), data);
  }

  /** Short of n bytes a bulk read gives those that are left, and tells so. */
  lemma ReadsRest(f: File, n: nat)
    requires f.pos <= |f.bytes| < f.pos + n
    ensures FileOp(f, ReadMany(n)) == (f.(pos := |f.bytes|), Many(f.bytes[f.pos..], true))
  {
    assert f.bytes[f.pos..|f.bytes|] == f.bytes[f.pos..];
  }

  lemma {:induction false} StaysInside(f: File, ops: seq<Op>)
    requires f.pos <= |f.bytes| && forall i :: 0 <= i < |ops| && ops[i].SeekTo? ==> ops[i].pos <= |f.bytes|
    ensures var r := FileRun(f, ops).0; r.pos <= |r.bytes| && |f.bytes| <= |r.bytes|
  {
    if ops != [] { StaysInside(f, ops[..|ops| - 1]); }
  }

  /** Allowed are at least all runs that seek no further than to the end. */
  lemma {:induction false} InsideIsAllowed(f: File, ops: seq<Op>)
    requires f.pos <= |f.bytes| && forall i :: 0 <= i < |ops| && ops[i].SeekTo? ==> ops[i].pos <= |f.bytes|
    ensures AllAllowed(f, ops)
  {
    if ops != [] {
      InsideIsAllowed(f, ops[..|ops| - 1]);
      StaysInside(f, ops[..|ops| - 1]);
    }
  }

  method PerformReadMany(file: BufferedRandomAccessFile, n: nat) returns (reply: Reply)
    requires file.Valid() && Allowed(file.View(), ReadMany(n))
    modifies file, file.raf, file.buffer
    ensures file.Valid() && (file.View(), reply) == FileOp(old(file.View()), ReadMany(n))
  {
    hide Overlay; hide Splice; hide BufferedRandomAccessFile.Valid; hide BufferedRandomAccessFile.Contents;
    file.Sizes();
    var b := new byte[n];
    ghost var f, was := file.View(), b[..];
    var start := file.Pos();
    var end := file.ReadFully(b, 0, n);
    if f.pos <= |f.bytes| { SpliceFront(was, f.bytes[f.pos..f.pos + Available(f, n)]); }
    reply := Many(b[..file.Pos() - start], end != Full);
  }

  method Perform(file: BufferedRandomAccessFile, op: Op) returns (reply: Reply)
    requires file.Valid() && Allowed(file.View(), op)
    modifies file, file.raf, file.buffer
    ensures file.Valid() && (file.View(), reply) == FileOp(old(file.View()), op)
  {
    hide Overlay; hide Splice;
    match op
    case SeekTo(p) =>
      file.Seek(p);
      reply := Done;
    case ReadOne =>
      var r := file.Read();
      reply := if r == None then Eof else One(r.value);
    case ReadMany(n) =>
      reply := PerformReadMany(file, n);
    case WriteOne(v) =>
      file.Write(v);
      reply := Done;
  }

  lemma {:induction false} AllowedPrefix(f: File, ops: seq<Op>, i: nat)
    requires AllAllowed(f, ops) && i <= |ops|
    ensures AllAllowed(f, ops[..i])
    decreases |ops|
  {
    if i < |ops| {
      AllowedPrefix(f, ops[..|ops| - 1], i);
      assert ops[..|ops| - 1][..i] == ops[..i];
    } else {
      assert ops[..i] == ops;
    }
  }

  /** Any run of seeks, reads and writes gives the replies, the contents and the
      position of the plain file, as long as nothing is written or read in bulk while the
      cursor is past the end: Write and ReadFully say what goes wrong there. */
  method PerformAll(file: BufferedRandomAccessFile, ops: seq<Op>) returns (replies: seq<Reply>)
    requires file.Valid() && AllAllowed(file.View(), ops)
    modifies file, file.raf, file.buffer
    ensures file.Valid() && (file.View(), replies) == FileRun(old(file.View()), ops)
  {
    hide Overlay; hide FileOp;
    ghost var f := file.View();
    replies := [];
    for i := 0 to |ops|
      invariant file.Valid() && (file.View(), replies) == FileRun(f, ops[..i])
    {
      AllowedPrefix(f, ops, i + 1);
      assert ops[..i + 1][..i] == ops[..i];
      var reply := Perform(file, ops[i]);
      replies := replies + [reply];
    }
    assert ops[..|ops|] == ops;
  }

  /** Writing at the end of the file appends. */
  lemma {:induction false} PutBytesAppends(f: File, data: seq<byte>)
    requires f.pos == |f.bytes|
    ensures PutBytes(f, data) == File(f.bytes + data, f.pos + |data|)
    decreases |data|
  {
    if data != [] {
      PutBytesAppends(f, data[..|data| - 1]);
      assert Zeros(0) == [];
      assert data == data[..|data| - 1] + [data[|data| - 1]];
    }
  }
}
