/**
 * Binary property streams of source/fileloader.h and source/fileloader.cpp:
 * PropWriteStream appends fixed-width integers and length-prefixed strings
 * to a byte buffer; PropStream is a bounds-checked cursor over such bytes.
 * Integers are stored little-endian; strings are byte strings.
 */
module FileLoader {
  import opened Bytes

  /** Largest length a u16 prefix can carry: std::numeric_limits<uint16_t>::max(). */
  const U16_MAX: nat := 0xFFFF

  /** The values `PropWriteStream::operator>>` accepts (floating point is not modelled). */
  datatype Value =
    | Bool(b: bool)
    | U8(v8: byte)
    | U16(v16: u16)
    | U32(v32: u32)
    | U64(v64: u64)
    | Str(s: seq<byte>)

  /** The bytes `writer >> v` appends. */
  function Encoding(v: Value): seq<byte>
  {
    match v
    case Bool(b) => EncodeLE(if b then 1 else 0, 1)
    case U8(x) => EncodeLE(x, 1)
    case U16(x) => EncodeLE(x, 2)
    case U32(x) => EncodeLE(x, 4)
    case U64(x) => EncodeLE(x, 8)
    case Str(s) => if |s| > U16_MAX then EncodeLE(0, 2) else EncodeLE(|s|, 2) + s
  }

  /** The readable values: strings no longer than a u16 prefix can state. */
  predicate Readable(v: Value)
  {
    v.Str? ==> |v.s| <= U16_MAX
  }

  class PropWriteStream {
    var buffer: seq<byte>

    constructor ()
      ensures buffer == []
    {
      buffer := [];
    }

    /** getStream: the buffer and its size; nothing changes. */
    method GetStream() returns (data: seq<byte>, size: nat)
      ensures data == buffer && size == |buffer|
    {
      data, size := buffer, |buffer|;
    }

    method Clear()
      modifies this
      ensures buffer == []
    {
      buffer := [];
    }

    /** write<T>: exactly sizeof(T) == width bytes, the value's representation. */
    method Write(v: nat, width: nat)
      requires v < Pow256(width)
      modifies this
      ensures buffer == old(buffer) + EncodeLE(v, width)
    {
      buffer := buffer + EncodeLE(v, width);
    }

    /** `>> _String`: the raw bytes, without a length prefix. */
    method WriteRaw(str: seq<byte>)
      modifies this
      ensures buffer == old(buffer) + str
    {
      buffer := buffer + str;
    }

    /**
     * `>> std::string`: a u16 length, then the bytes. A string longer than
     * 65535 bytes is replaced by the length 0 alone.
     */
    method WriteString(str: seq<byte>)
      modifies this
      ensures buffer == old(buffer) + Encoding(Str(str))
    {
      var strLength := |str|;
      if strLength > U16_MAX {
        Write(0, 2);
        return;
      }
      Write(strLength, 2);
      buffer := buffer + str;
    }

    method WriteBool(add: bool)
      modifies this
      ensures buffer == old(buffer) + Encoding(Bool(add))
    {
      Write(if add then 1 else 0, 1);
    }

    method WriteU8(add: byte)
      modifies this
      ensures buffer == old(buffer) + Encoding(U8(add))
    {
      Write(add, 1);
    }

    method WriteU16(add: u16)
      modifies this
      ensures buffer == old(buffer) + Encoding(U16(add))
    {
      Write(add, 2);
    }

    method WriteU32(add: u32)
      modifies this
      ensures buffer == old(buffer) + Encoding(U32(add))
    {
      Write(add, 4);
    }

    method WriteU64(add: u64)
      modifies this
      ensures buffer == old(buffer) + Encoding(U64(add))
    {
      Write(add, 8);
    }

    /** `writer >> v` for any value. */
    method WriteValue(v: Value)
      modifies this
      ensures buffer == old(buffer) + Encoding(v)
    {
      match v
      case Bool(b) => WriteBool(b);
      case U8(x) => WriteU8(x);
      case U16(x) => WriteU16(x);
      case U32(x) => WriteU32(x);
      case U64(x) => WriteU64(x);
      case Str(s) => WriteString(s);
    }
  }

  /**
   * PropStream: the bytes from p to end. The C++ stream points into the
   * buffer it was initialised from; this model holds a copy of those bytes
   * and the cursor p as an offset into them.
   */
  class PropStream {
    var data: seq<byte>
    var p: nat

    ghost predicate Valid()
      reads this
    {
      p <= |data|
    }

    /** A fresh stream: p and end are both null, so nothing is left to read. */
    constructor ()
      ensures Valid() && data == [] && Size() == 0
    {
      data, p := [], 0;
    }

    /** size(): `end - p`, the number of bytes left to read. */
    function Size(): (r: nat)
      reads this
      requires Valid()
      ensures r == |Remaining()| && r <= |data|
    {
      |data| - p
    }

    /** The bytes left to read. */
    function Remaining(): seq<byte>
      reads this
      requires Valid()
    {
      data[p..]
    }

    method Init(a: seq<byte>)
      modifies this
      ensures Valid() && data == a && p == 0 && Size() == |a|
    {
      data, p := a, 0;
    }

    /** `reader << writer`: reads from the writer's first byte; the writer is untouched. */
    method LoadFrom(writer: PropWriteStream)
      modifies this
      ensures Valid() && Size() == |writer.buffer| && Remaining() == writer.buffer
    {
      var buffer, size := writer.GetStream();
      Init(buffer);
    }

    /**
     * read<T> with sizeof(T) == width: fails, with the cursor and ret untouched,
     * when fewer than width bytes are left; otherwise decodes the next width
     * bytes and advances by exactly width.
     */
    method Read(width: nat, ret: nat) returns (ok: bool, ret': nat)
      requires Valid()
      modifies this`p
      ensures Valid() && Size() <= old(Size())
      ensures ok == (old(Size()) >= width)
      ensures ok ==> p == old(p) + width && ret' == DecodeLE(data[old(p)..p])
      ensures !ok ==> p == old(p) && ret' == ret
    {
      if Size() < width {
        return false, ret;
      }
      ret' := DecodeLE(data[p..p + width]);
      p := p + width;
      ok := true;
    }

    /**
     * readString: reads a u16 length L, then L bytes. Fewer than 2 bytes left:
     * fails without moving. Fewer than L bytes after the prefix: fails, but the
     * 2 prefix bytes stay consumed.
     */
    method ReadString(ret: seq<byte>) returns (ok: bool, ret': seq<byte>)
      requires Valid()
      modifies this`p
      ensures Valid() && Size() <= old(Size())
      ensures old(Size()) < 2 ==> !ok && p == old(p) && ret' == ret
      ensures old(Size()) >= 2 ==>
        var strLen := DecodeLE(data[old(p)..old(p) + 2]);
        if old(Size()) - 2 < strLen then !ok && p == old(p) + 2 && ret' == ret
        else ok && p == old(p) + 2 + strLen && ret' == data[old(p) + 2..p]
    {
      var strLen;
      ok, strLen := Read(2, 0);
      if !ok {
        return false, ret;
      }
      if Size() < strLen {
        return false, ret;
      }
      ret' := data[p..p + strLen];
      p := p + strLen;
    }

    /** skip: fails without moving when n > size(); otherwise advances by n. */
    method Skip(n: nat) returns (ok: bool)
      requires Valid()
      modifies this`p
      ensures Valid() && Size() <= old(Size())
      ensures ok == (n <= old(Size()))
      ensures p == if ok then old(p) + n else old(p)
    {
      if Size() < n {
        return false;
      }
      p := p + n;
      ok := true;
    }

    /** Reads back one value of the kind of `like`, as the matching `>>` wrote it. */
    method ReadValue(like: Value) returns (ok: bool, v: Value)
      requires Valid()
      modifies this`p
      ensures Valid() && Size() <= old(Size())
      ensures Readable(like) && Encoding(like) <= old(Remaining()) ==>
        ok && v == like && Remaining() == old(Remaining())[|Encoding(like)|..]
    {
      if like.Str? {
        ok, v := ReadStrValue(like.s);
      } else {
        ok, v := ReadIntValue(like);
      }
    }

    /** readString for a string that `>> std::string` wrote. */
    method ReadStrValue(str: seq<byte>) returns (ok: bool, v: Value)
      requires Valid()
      modifies this`p
      ensures Valid() && Size() <= old(Size())
      ensures |str| <= U16_MAX && Encoding(Str(str)) <= old(Remaining()) ==>
        ok && v == Str(str) && Remaining() == old(Remaining())[|Encoding(Str(str))|..]
    {
      ghost var p0 := p;
      ghost var enc := Encoding(Str(str));
      ghost var fits := |str| <= U16_MAX && enc <= data[p..];
      if fits {
        StringEncodingRead(data, p0, str);
      }
      var got;
      ok, got := ReadString([]);
      v := Str(got);
      if fits {
        assert data[p..] == data[p0..][|enc|..];
      }
    }

    /** read<T> for an integer or a bool that `>>` wrote, narrowed back to its type. */
    method ReadIntValue(like: Value) returns (ok: bool, v: Value)
      requires Valid() && !like.Str?
      modifies this`p
      ensures Valid() && Size() <= old(Size())
      ensures Encoding(like) <= old(Remaining()) ==>
        ok && v == like && Remaining() == old(Remaining())[|Encoding(like)|..]
    {
      ghost var p0 := p;
      ghost var enc := Encoding(like);
      ghost var fits := enc <= data[p..];
      var width := |Encoding(like)|;
      var x;
      ok, x := Read(width, 0);
      v := match like
        case Bool(_) => Bool(x != 0)
        case U8(_) => U8(x % 0x100)
        case U16(_) => U16(x % 0x1_0000)
        case U32(_) => U32(x % 0x1_0000_0000)
        case U64(_) => U64(x % 0x1_0000_0000_0000_0000);
      if fits {
        IntEncodingRead(data, p0, like);
        assert data[p..] == data[p0..][|enc|..];
      }
    }
  }

  /** Where a string's encoding starts at p0, its prefix and its bytes follow. */
  lemma StringEncodingRead(data: seq<byte>, p0: nat, str: seq<byte>)
    requires p0 <= |data| && |str| <= U16_MAX && Encoding(Str(str)) <= data[p0..]
    ensures p0 + 2 + |str| <= |data|
    ensures DecodeLE(data[p0..p0 + 2]) == |str| && data[p0 + 2..p0 + 2 + |str|] == str
  {
    var enc := Encoding(Str(str));
    assert enc == EncodeLE(|str|, 2) + str;
    assert data[p0..p0 + 2] == enc[..2] == EncodeLE(|str|, 2);
    DecodeEncode(|str|, 2);
    assert data[p0 + 2..p0 + 2 + |str|] == enc[2..];
  }

  /** Where an integer's encoding starts at p0, its width bytes decode to its value. */
  lemma IntEncodingRead(data: seq<byte>, p0: nat, like: Value)
    requires !like.Str? && p0 <= |data| && Encoding(like) <= data[p0..]
    ensures p0 + |Encoding(like)| <= |data|
    ensures var x := DecodeLE(data[p0..p0 + |Encoding(like)|]);
      match like
      case Bool(b) => (x != 0) == b
      case U8(y) => x % 0x100 == y
      case U16(y) => x % 0x1_0000 == y
      case U32(y) => x % 0x1_0000_0000 == y
      case U64(y) => x % 0x1_0000_0000_0000_0000 == y
      case Str(_) => true
  {
    assert data[p0..p0 + |Encoding(like)|] == Encoding(like);
    DecodeValue(like);
  }

  /** An integer's encoding decodes to that integer. */
  lemma DecodeValue(v: Value)
    requires !v.Str?
    ensures match v
      case Bool(b) => (DecodeLE(Encoding(v)) != 0) == b
      case U8(x) => DecodeLE(Encoding(v)) % 0x100 == x
      case U16(x) => DecodeLE(Encoding(v)) % 0x1_0000 == x
      case U32(x) => DecodeLE(Encoding(v)) % 0x1_0000_0000 == x
      case U64(x) => DecodeLE(Encoding(v)) % 0x1_0000_0000_0000_0000 == x
      case Str(_) => true
  {
    WidthLimits();
    match v
    case Bool(b) =>
      DecodeEncode(if b then 1 else 0, 1);
    case U8(x) =>
      assert Encoding(v) == EncodeLE(x, 1);
      DecodeEncode(x, 1);
    case U16(x) =>
      assert Encoding(v) == EncodeLE(x, 2);
      DecodeEncode(x, 2);
    case U32(x) =>
      assert Encoding(v) == EncodeLE(x, 4);
      DecodeEncode(x, 4);
    case U64(x) =>
      assert Encoding(v) == EncodeLE(x, 8);
      DecodeEncode(x, 8);
  }

  /** The encodings of vs, one chunk per value. */
  function Encodings(vs: seq<Value>): (r: seq<seq<byte>>)
    ensures |r| == |vs| && forall k {:trigger r[k]} :: 0 <= k < |vs| ==> r[k] == Encoding(vs[k])
  {
    seq(|vs|, k requires 0 <= k < |vs| => Encoding(vs[k]))
  }

  /** The chunks joined, built up from the back as a writer appends them. */
  function Concat(chunks: seq<seq<byte>>): seq<byte>
  {
    if |chunks| == 0 then [] else Concat(chunks[..|chunks| - 1]) + chunks[|chunks| - 1]
  }

  /** The chunks from i on joined, taken from the front as a reader consumes them. */
  function ConcatFrom(chunks: seq<seq<byte>>, i: nat): seq<byte>
    requires i <= |chunks|
    decreases |chunks| - i
  {
    if i == |chunks| then [] else chunks[i] + ConcatFrom(chunks, i + 1)
  }

  /** The bytes that writing vs in order appends. */
  function EncodingOfAll(vs: seq<Value>): seq<byte>
  {
    Concat(Encodings(vs))
  }

  lemma ConcatStep(start: seq<byte>, before: seq<byte>, after: seq<byte>, chunks: seq<seq<byte>>, i: nat)
    requires i < |chunks|
    requires before == start + Concat(chunks[..i]) && after == before + chunks[i]
    ensures after == start + Concat(chunks[..i + 1])
  {
    var t := chunks[..i + 1];
    assert t[..i] == chunks[..i] && t[i] == chunks[i];
  }

  /** Writes vs in order. */
  method WriteAll(writer: PropWriteStream, vs: seq<Value>)
    modifies writer
    ensures writer.buffer == old(writer.buffer) + EncodingOfAll(vs)
  {
    ghost var start := writer.buffer;
    ghost var chunks := Encodings(vs);
    var i := 0;
    while i < |vs|
      invariant 0 <= i <= |vs|
      invariant writer.buffer == start + Concat(chunks[..i])
    {
      ghost var before := writer.buffer;
      writer.WriteValue(vs[i]);
      ConcatStep(start, before, writer.buffer, chunks, i);
      i := i + 1;
    }
    assert chunks[..i] == chunks;
  }

  /**
   * Values written with `>>` and read back, in the same order, from a
   * PropStream loaded with `<<` are the values written, and the stream is
   * then exhausted.
   */
  method RoundTrip(vs: seq<Value>) returns (ok: bool, back: seq<Value>, left: nat)
    requires forall i :: 0 <= i < |vs| ==> Readable(vs[i])
    ensures ok && back == vs && left == 0
  {
    var writer := new PropWriteStream();
    WriteAll(writer, vs);
    var reader := new PropStream();
    reader.LoadFrom(writer);
    ghost var chunks := Encodings(vs);
    ConcatIsConcatFrom(chunks);
    ok, back := true, [];
    var i := 0;
    while i < |vs|
      invariant 0 <= i <= |vs|
      invariant reader.Valid()
      invariant ok && back == vs[..i]
      invariant reader.Remaining() == ConcatFrom(chunks, i)
    {
      ConcatFromStep(chunks, i);
      assert Readable(vs[i]) && Encoding(vs[i]) <= reader.Remaining();
      var got, v := reader.ReadValue(vs[i]);
      ok := got;
      assert v == vs[i];
      TakeSnoc(vs, i);
      back := back + [v];
      i := i + 1;
    }
    assert vs[..i] == vs;
    left := reader.Size();
  }

  /** The chunk at i is a prefix of the join from i, and what follows it is the join from i + 1. */
  lemma ConcatFromStep(chunks: seq<seq<byte>>, i: nat)
    requires i < |chunks|
    ensures chunks[i] <= ConcatFrom(chunks, i)
    ensures ConcatFrom(chunks, i)[|chunks[i]|..] == ConcatFrom(chunks, i + 1)
  {
    var rest := ConcatFrom(chunks, i + 1);
    assert ConcatFrom(chunks, i) == chunks[i] + rest;
  }

  /** Joining from the back and joining from the front give the same bytes. */
  lemma {:induction false} ConcatIsConcatFrom(chunks: seq<seq<byte>>)
    ensures Concat(chunks) == ConcatFrom(chunks, 0)
  {
    if |chunks| > 0 {
      ConcatIsConcatFrom(chunks[..|chunks| - 1]);
      ConcatFromSnoc(chunks, 0);
    }
  }

  /** Joining from i on, the last chunk comes last. */
  lemma {:induction false} ConcatFromSnoc(chunks: seq<seq<byte>>, i: nat)
    requires |chunks| > 0 && i <= |chunks| - 1
    ensures ConcatFrom(chunks, i) == ConcatFrom(chunks[..|chunks| - 1], i) + chunks[|chunks| - 1]
    decreases |chunks| - i
  {
    if i < |chunks| - 1 {
      ConcatFromSnoc(chunks, i + 1);
      var init := chunks[..|chunks| - 1];
      assert init[i] == chunks[i];
      assert ConcatFrom(init, i) == init[i] + ConcatFrom(init, i + 1);
      Associative(chunks[i], ConcatFrom(init, i + 1), chunks[|chunks| - 1]);
    }
  }

  lemma TakeSnoc<T>(s: seq<T>, i: nat)
    requires i < |s|
    ensures s[..i + 1] == s[..i] + [s[i]]
  {
  }

  lemma Associative(x: seq<byte>, y: seq<byte>, z: seq<byte>)
    ensures x + y + z == x + (y + z)
  {
  }
}
