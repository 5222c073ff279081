/** A model of Python's `struct.unpack` for `<` formats (little-endian,
    standard sizes, no padding), restricted to the three codes LabChart
    headers use: `Ns` (N raw bytes), `i` (signed 32-bit) and `d` (an
    8-byte IEEE double, kept here as its opaque bytes). */
module Struct {
  import opened Bytes
  import opened Results

  /** One format code. */
  datatype Kind = Chars(width: nat) | Int32 | Float64

  /** One element of an unpacked list: Python `bytes`, `int`, `float`, or
      the `str` that text normalisation puts in place of `bytes`. */
  datatype Field =
    | Raw(bytes: seq<Byte>)
    | Int(value: int)
    | Double(bits: seq<Byte>)
    | Text(chars: string)

  function Width(k: Kind): (w: nat)
  {
    match k
    case Chars(w) => w
    case Int32 => 4
    case Float64 => 8
  }

  /** Where field `i` of `format` starts: the widths of the fields before it, added up. */
  function FieldOffset(format: seq<Kind>, i: nat): (off: nat)
    requires i <= |format|
  {
    if i == 0 then 0 else FieldOffset(format, i - 1) + Width(format[i - 1])
  }

  /** `struct.calcsize` of a format: fields follow one another with no padding. */
  function FormatSize(format: seq<Kind>): (size: nat)
  {
    FieldOffset(format, |format|)
  }

  /** Dropping the first code moves every later offset back by its width. */
  lemma {:induction false} FieldOffsetTail(format: seq<Kind>, i: nat)
    requires 0 < i <= |format|
    ensures FieldOffset(format, i) == Width(format[0]) + FieldOffset(format[1..], i - 1)
  {
    if i > 1 {
      FieldOffsetTail(format, i - 1);
      assert format[1..][i - 2] == format[i - 1];
    }
  }

  /** A record is its first field followed by the record of the remaining codes. */
  lemma FormatSizeTail(format: seq<Kind>)
    requires format != []
    ensures FormatSize(format) == Width(format[0]) + FormatSize(format[1..])
  {
    FieldOffsetTail(format, |format|);
  }

  /** Fields lie inside the record. */
  lemma {:induction false} FieldOffsetBounds(format: seq<Kind>, i: nat)
    requires i < |format|
    ensures FieldOffset(format, i) + Width(format[i]) <= FormatSize(format)
    decreases |format| - i
  {
    if i + 1 < |format| {
      FieldOffsetBounds(format, i + 1);
    }
  }

  /** `offs` lists where each field of `format` starts, followed by the record size. */
  predicate OffsetTable(format: seq<Kind>, offs: seq<nat>)
  {
    |offs| == |format| + 1 && offs[0] == 0 &&
    forall i :: 0 <= i < |format| ==> offs[i + 1] == offs[i] + Width(format[i])
  }

  /** An offset table agrees with the field offsets `struct` computes, and ends at the record size. */
  lemma {:induction false} OffsetTableAgrees(format: seq<Kind>, offs: seq<nat>, i: nat)
    requires OffsetTable(format, offs)
    requires i <= |format|
    ensures FieldOffset(format, i) == offs[i]
  {
    if i > 0 {
      OffsetTableAgrees(format, offs, i - 1);
    }
  }

  /** The last entry of an offset table is the record size. */
  lemma OffsetTableSize(format: seq<Kind>, offs: seq<nat>)
    requires OffsetTable(format, offs)
    ensures FormatSize(format) == offs[|format|]
  {
    OffsetTableAgrees(format, offs, |format|);
  }

  /** A field value that `k` can hold and write back. */
  predicate Conforms(k: Kind, f: Field)
  {
    match k
    case Chars(w) => f.Raw? && |f.bytes| == w
    case Int32 => f.Int? && IsInt32(f.value)
    case Float64 => f.Double? && |f.bits| == 8
  }

  /** Each field of `fs` conforms to the code at the same position of `format`. */
  predicate AllConform(format: seq<Kind>, fs: seq<Field>)
  {
    |fs| == |format| && forall i :: 0 <= i < |format| ==> Conforms(format[i], fs[i])
  }

  function DecodeField(k: Kind, b: seq<Byte>): (f: Field)
    requires |b| == Width(k)
    ensures Conforms(k, f)
  {
    match k
    case Chars(_) => Raw(b)
    case Int32 => Int(DecodeInt32(b))
    case Float64 => Double(b)
  }

  function EncodeField(k: Kind, f: Field): (b: seq<Byte>)
    requires Conforms(k, f)
    ensures |b| == Width(k) && DecodeField(k, b) == f
  {
    match k
    case Chars(_) => f.bytes
    case Int32 => EncodeInt32(f.value)
    case Float64 => f.bits
  }

  lemma FieldBytesRoundTrip(k: Kind, b: seq<Byte>)
    requires |b| == Width(k)
    ensures EncodeField(k, DecodeField(k, b)) == b
  {
    if k == Int32 {
      Int32BytesRoundTrip(b);
    }
  }

  /** The bytes field `i` of a record is read from. */
  function FieldBytes(format: seq<Kind>, b: seq<Byte>, i: nat): (bytes: seq<Byte>)
    requires |b| == FormatSize(format)
    requires i < |format|
    ensures |bytes| == Width(format[i])
  {
    FieldOffsetBounds(format, i);
    var off := FieldOffset(format, i);
    b[off..off + Width(format[i])]
  }

  /** Field `i` of a record: decoded from the bytes where the format places it. */
  function FieldAt(format: seq<Kind>, b: seq<Byte>, i: nat): (f: Field)
    requires |b| == FormatSize(format)
    requires i < |format|
    ensures Conforms(format[i], f)
  {
    DecodeField(format[i], FieldBytes(format, b, i))
  }

  /** Unpacking a buffer of exactly the format's size: field `i` is read at
      the offset the widths of the fields before it add up to. */
  function UnpackExact(format: seq<Kind>, b: seq<Byte>): (fs: seq<Field>)
    requires |b| == FormatSize(format)
    ensures |fs| == |format|
  {
    seq(|format|, i requires 0 <= i < |format| => FieldAt(format, b, i))
  }

  /** Every unpacked field has the type its code stands for. */
  lemma UnpackConforms(format: seq<Kind>, b: seq<Byte>)
    requires |b| == FormatSize(format)
    ensures AllConform(format, UnpackExact(format, b))
  {
  }

  /** `struct.unpack(format, b)`: a buffer of any other size is an error. */
  function Unpack(format: seq<Kind>, b: seq<Byte>): (r: Result<seq<Field>>)
    ensures r.Ok? <==> |b| == FormatSize(format)
    ensures r.Err? ==> r.error == StructError
    ensures r.Ok? ==> |r.value| == |format|
  {
    if |b| != FormatSize(format) then Err(StructError) else Ok(UnpackExact(format, b))
  }

  lemma AllConformTail(format: seq<Kind>, fs: seq<Field>)
    requires AllConform(format, fs) && format != []
    ensures AllConform(format[1..], fs[1..])
  {
    assert forall i :: 0 <= i < |format| - 1 ==> format[1..][i] == format[i + 1];
    assert forall i :: 0 <= i < |format| - 1 ==> fs[1..][i] == fs[i + 1];
  }

  /** `struct.pack(format, *fs)`: the fields' encodings, one after another. */
  function Pack(format: seq<Kind>, fs: seq<Field>): (b: seq<Byte>)
    requires AllConform(format, fs)
    ensures |b| == FormatSize(format)
  {
    if format == [] then []
    else
      FormatSizeTail(format);
      AllConformTail(format, fs);
      EncodeField(format[0], fs[0]) + Pack(format[1..], fs[1..])
  }

  lemma SplitAt<T>(b: seq<T>, w: nat)
    requires w <= |b|
    ensures b[..w] + b[w..] == b
  {
  }

  lemma SliceOfSuffix<T>(b: seq<T>, w: nat, off: nat, len: nat)
    requires w + off + len <= |b|
    ensures b[w..][off..off + len] == b[w + off..w + off + len]
  {
  }

  /** The first field is read from the first bytes of the record. */
  lemma UnpackHead(format: seq<Kind>, b: seq<Byte>)
    requires |b| == FormatSize(format) && format != []
    ensures Width(format[0]) <= |b|
    ensures UnpackExact(format, b)[0] == DecodeField(format[0], b[..Width(format[0])])
  {
    FieldOffsetBounds(format, 0);
    assert FieldBytes(format, b, 0) == b[..Width(format[0])];
  }

  /** Field `j + 1` of a record is field `j` of the record that starts after the first field. */
  lemma UnpackShift(format: seq<Kind>, b: seq<Byte>, j: nat)
    requires |b| == FormatSize(format) && j + 1 < |format|
    ensures FormatSize(format) == Width(format[0]) + FormatSize(format[1..])
    ensures UnpackExact(format, b)[j + 1] == UnpackExact(format[1..], b[Width(format[0])..])[j]
  {
    FormatSizeTail(format);
    var tail := b[Width(format[0])..];
    assert format[1..][j] == format[j + 1];
    FieldBytesShift(format, b, j);
    assert UnpackExact(format, b)[j + 1] == DecodeField(format[j + 1], FieldBytes(format, b, j + 1));
    assert UnpackExact(format[1..], tail)[j] == DecodeField(format[j + 1], FieldBytes(format[1..], tail, j));
  }

  lemma FieldBytesShift(format: seq<Kind>, b: seq<Byte>, j: nat)
    requires |b| == FormatSize(format) && j + 1 < |format|
    ensures FormatSize(format) == Width(format[0]) + FormatSize(format[1..])
    ensures FieldBytes(format, b, j + 1) == FieldBytes(format[1..], b[Width(format[0])..], j)
  {
    FormatSizeTail(format);
    var w := Width(format[0]);
    var len := Width(format[j + 1]);
    assert format[1..][j] == format[j + 1];
    FieldOffsetTail(format, j + 1);
    FieldOffsetBounds(format[1..], j);
    var off := FieldOffset(format[1..], j);
    SliceOfSuffix(b, w, off, len);
  }

  /** The fields after the first are the record of the remaining codes, read
      from the bytes after the first field. */
  lemma UnpackTail(format: seq<Kind>, b: seq<Byte>)
    requires |b| == FormatSize(format) && format != []
    ensures FormatSize(format) == Width(format[0]) + FormatSize(format[1..])
    ensures UnpackExact(format, b)[1..] == UnpackExact(format[1..], b[Width(format[0])..])
  {
    FormatSizeTail(format);
    var fs := UnpackExact(format, b);
    var rest := UnpackExact(format[1..], b[Width(format[0])..]);
    forall j | 0 <= j < |format| - 1
      ensures fs[1..][j] == rest[j]
    {
      UnpackShift(format, b, j);
    }
  }

  /** Packing fields and unpacking the bytes gives the fields back. */
  lemma {:induction false} UnpackExactPack(format: seq<Kind>, fs: seq<Field>)
    requires AllConform(format, fs)
    ensures UnpackExact(format, Pack(format, fs)) == fs
  {
    if format != [] {
      FormatSizeTail(format);
      var w := Width(format[0]);
      var b := Pack(format, fs);
      var u := UnpackExact(format, b);
      AllConformTail(format, fs);
      assert b[..w] == EncodeField(format[0], fs[0]);
      assert b[w..] == Pack(format[1..], fs[1..]);
      UnpackHead(format, b);
      assert u[0] == fs[0];
      UnpackTail(format, b);
      UnpackExactPack(format[1..], fs[1..]);
      assert u[1..] == fs[1..];
      assert u == [u[0]] + u[1..];
      assert fs == [fs[0]] + fs[1..];
    }
  }

  lemma UnpackPack(format: seq<Kind>, fs: seq<Field>)
    requires AllConform(format, fs)
    ensures Unpack(format, Pack(format, fs)) == Ok(fs)
  {
    UnpackExactPack(format, fs);
  }

  /** Unpacking bytes and packing the fields gives the bytes back. */
  lemma {:induction false} PackUnpack(format: seq<Kind>, b: seq<Byte>)
    requires |b| == FormatSize(format)
    ensures AllConform(format, UnpackExact(format, b))
    ensures Pack(format, UnpackExact(format, b)) == b
  {
    UnpackConforms(format, b);
    if format != [] {
      FormatSizeTail(format);
      var w := Width(format[0]);
      PackUnpack(format[1..], b[w..]);
      PackUnpackStep(format, b);
    }
  }

  /** The inductive step of `PackUnpack`: the first field writes back its own bytes,
      and the rest are the record after it. */
  lemma PackUnpackStep(format: seq<Kind>, b: seq<Byte>)
    requires |b| == FormatSize(format) && format != []
    requires FormatSize(format) == Width(format[0]) + FormatSize(format[1..])
    requires Pack(format[1..], UnpackExact(format[1..], b[Width(format[0])..])) == b[Width(format[0])..]
    ensures Pack(format, UnpackExact(format, b)) == b
  {
    var w := Width(format[0]);
    var fs := UnpackExact(format, b);
    UnpackConforms(format, b);
    UnpackHeadRoundTrip(format, b);
    UnpackTail(format, b);
    UnpackConforms(format[1..], b[w..]);
    PackSplit(format, fs, b[..w], b[w..]);
    SplitAt(b, w);
  }

  /** The first unpacked field writes back the bytes it was read from. */
  lemma UnpackHeadRoundTrip(format: seq<Kind>, b: seq<Byte>)
    requires |b| == FormatSize(format) && format != []
    ensures Width(format[0]) <= |b|
    ensures EncodeField(format[0], UnpackExact(format, b)[0]) == b[..Width(format[0])]
  {
    UnpackHead(format, b);
    FieldBytesRoundTrip(format[0], b[..Width(format[0])]);
  }

  /** Packing writes the first field's bytes, then the rest. */
  lemma PackSplit(format: seq<Kind>, fs: seq<Field>, head: seq<Byte>, tail: seq<Byte>)
    requires AllConform(format, fs) && format != []
    requires EncodeField(format[0], fs[0]) == head
    requires AllConform(format[1..], fs[1..]) && Pack(format[1..], fs[1..]) == tail
    ensures Pack(format, fs) == head + tail
  {
  }
}
