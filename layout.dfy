/** The fixed byte layout of a LabChart recording from an MRI field dosimeter:
    a 68-byte file header, six 96-byte channel headers, then the samples.
    A file is modelled as the byte sequence it holds; reading a region is slicing it. */
module LabChart {
  import opened Bytes
  import opened Results
  import opened Struct
  import opened Text

  type File = seq<Byte>

  const FILE_HEADER_BYTES: nat := 68
  const CHANNEL_HEADER_BYTES: nat := 96
  /** The channel count `read_channels` uses; the header's own nChannels is not consulted. */
  const N_CHANNELS: nat := 6
  const DATA_OFFSET: nat := FILE_HEADER_BYTES + N_CHANNELS * CHANNEL_HEADER_BYTES

  /** `'<4sidiiiiiddiiii'`: magic, version, secPerTick, year, month, day, hour, minute,
      seconds, trigger, nChannels, samplesPerChannel, timeChannel, dataFormat. */
  const FILE_HEADER_FORMAT: seq<Kind> :=
    [Chars(4), Int32, Float64, Int32, Int32, Int32, Int32, Int32, Float64, Float64,
     Int32, Int32, Int32, Int32]
  const FILE_HEADER_OFFSETS: seq<nat> := [0, 4, 8, 16, 20, 24, 28, 32, 36, 44, 52, 56, 60, 64, 68]

  /** `'<32s32sdddd'`: title, units, scale, offset, RangeHigh, RangeLow. */
  const CHANNEL_HEADER_FORMAT: seq<Kind> := [Chars(32), Chars(32), Float64, Float64, Float64, Float64]
  const CHANNEL_HEADER_OFFSETS: seq<nat> := [0, 32, 64, 72, 80, 88, 96]

  /** Positions in the file header list. */
  const SAMPLES_PER_CHANNEL_FIELD: nat := 11

  lemma FormatSizes()
    ensures OffsetTable(FILE_HEADER_FORMAT, FILE_HEADER_OFFSETS)
    ensures OffsetTable(CHANNEL_HEADER_FORMAT, CHANNEL_HEADER_OFFSETS)
    ensures FormatSize(FILE_HEADER_FORMAT) == FILE_HEADER_BYTES
    ensures FormatSize(CHANNEL_HEADER_FORMAT) == CHANNEL_HEADER_BYTES
  {
    OffsetTableSize(FILE_HEADER_FORMAT, FILE_HEADER_OFFSETS);
    OffsetTableSize(CHANNEL_HEADER_FORMAT, CHANNEL_HEADER_OFFSETS);
  }

  /** The field `i` of a record with offset table `offs` comes from bytes `[offs[i], offs[i + 1])`. */
  lemma UnpackByTable(format: seq<Kind>, offs: seq<nat>, b: seq<Byte>, i: nat)
    requires OffsetTable(format, offs) && |b| == offs[|format|]
    requires i < |format|
    ensures |b| == FormatSize(format)
    ensures offs[i] <= offs[i + 1] <= |b|
    ensures UnpackExact(format, b)[i] == DecodeField(format[i], b[offs[i]..offs[i + 1]])
  {
    OffsetTableSize(format, offs);
    OffsetTableAgrees(format, offs, i);
    OffsetTableAgrees(format, offs, i + 1);
    FieldOffsetBounds(format, i);
  }

  /** Seek to `offset` and read at most `count` bytes: a read past the end comes back short. */
  function ReadRegion(file: File, offset: nat, count: nat): (r: seq<Byte>)
    ensures |r| == if offset >= |file| then 0 else Min(count, |file| - offset)
    ensures forall j :: 0 <= j < |r| ==> r[j] == file[offset + j]
  {
    if offset >= |file| then [] else file[offset..offset + Min(count, |file| - offset)]
  }

  /** `read_file_header`: a file header is 68 bytes unpacked field by field. */
  function ReadFileHeader(file: File, offset: nat): (r: Result<seq<Field>>)
    ensures r.Ok? <==> offset + FILE_HEADER_BYTES <= |file|
    ensures r.Err? ==> r.error == StructError
    ensures r.Ok? ==> |file[offset..offset + FILE_HEADER_BYTES]| == FormatSize(FILE_HEADER_FORMAT)
    ensures r.Ok? ==> r.value == UnpackExact(FILE_HEADER_FORMAT, file[offset..offset + FILE_HEADER_BYTES])
  {
    FormatSizes();
    var region := ReadRegion(file, offset, FILE_HEADER_BYTES);
    assert offset + FILE_HEADER_BYTES <= |file| ==> region == file[offset..offset + FILE_HEADER_BYTES];
    Unpack(FILE_HEADER_FORMAT, region)
  }

  /** The 14 fields of a file header and the exact bytes each comes from. */
  lemma FileHeaderLayout(h: seq<Byte>, fs: seq<Field>)
    requires |h| == FILE_HEADER_BYTES
    requires |h| == FormatSize(FILE_HEADER_FORMAT) && fs == UnpackExact(FILE_HEADER_FORMAT, h)
    ensures |fs| == 14
    ensures fs[0] == Raw(h[0..4])                 // magic
    ensures fs[1] == Int(DecodeInt32(h[4..8]))    // version
    ensures fs[2] == Double(h[8..16])             // secPerTick
    ensures fs[3] == Int(DecodeInt32(h[16..20]))  // year
    ensures fs[4] == Int(DecodeInt32(h[20..24]))  // month
    ensures fs[5] == Int(DecodeInt32(h[24..28]))  // day
    ensures fs[6] == Int(DecodeInt32(h[28..32]))  // hour
    ensures fs[7] == Int(DecodeInt32(h[32..36]))  // minute
    ensures fs[8] == Double(h[36..44])            // seconds
    ensures fs[9] == Double(h[44..52])            // trigger
    ensures fs[10] == Int(DecodeInt32(h[52..56]))  // nChannels
    ensures fs[11] == Int(DecodeInt32(h[56..60]))  // samplesPerChannel
    ensures fs[12] == Int(DecodeInt32(h[60..64]))  // timeChannel
    ensures fs[13] == Int(DecodeInt32(h[64..68]))  // dataFormat
  {
    FileHeaderFront(h);
    FileHeaderBack(h);
  }

  /** Fields magic to minute of a file header. */
  lemma FileHeaderFront(h: seq<Byte>)
    requires |h| == FILE_HEADER_BYTES
    ensures |h| == FormatSize(FILE_HEADER_FORMAT)
    ensures UnpackExact(FILE_HEADER_FORMAT, h)[0] == Raw(h[0..4])
    ensures UnpackExact(FILE_HEADER_FORMAT, h)[1] == Int(DecodeInt32(h[4..8]))
    ensures UnpackExact(FILE_HEADER_FORMAT, h)[2] == Double(h[8..16])
    ensures UnpackExact(FILE_HEADER_FORMAT, h)[3] == Int(DecodeInt32(h[16..20]))
    ensures UnpackExact(FILE_HEADER_FORMAT, h)[4] == Int(DecodeInt32(h[20..24]))
    ensures UnpackExact(FILE_HEADER_FORMAT, h)[5] == Int(DecodeInt32(h[24..28]))
    ensures UnpackExact(FILE_HEADER_FORMAT, h)[6] == Int(DecodeInt32(h[28..32]))
  {
    FormatSizes();
    UnpackByTable(FILE_HEADER_FORMAT, FILE_HEADER_OFFSETS, h, 0);
    UnpackByTable(FILE_HEADER_FORMAT, FILE_HEADER_OFFSETS, h, 1);
    UnpackByTable(FILE_HEADER_FORMAT, FILE_HEADER_OFFSETS, h, 2);
    UnpackByTable(FILE_HEADER_FORMAT, FILE_HEADER_OFFSETS, h, 3);
    UnpackByTable(FILE_HEADER_FORMAT, FILE_HEADER_OFFSETS, h, 4);
    UnpackByTable(FILE_HEADER_FORMAT, FILE_HEADER_OFFSETS, h, 5);
    UnpackByTable(FILE_HEADER_FORMAT, FILE_HEADER_OFFSETS, h, 6);
  }

  /** Fields seconds to dataFormat of a file header. */
  lemma FileHeaderBack(h: seq<Byte>)
    requires |h| == FILE_HEADER_BYTES
    ensures |h| == FormatSize(FILE_HEADER_FORMAT)
    ensures UnpackExact(FILE_HEADER_FORMAT, h)[7] == Int(DecodeInt32(h[32..36]))
    ensures UnpackExact(FILE_HEADER_FORMAT, h)[8] == Double(h[36..44])
    ensures UnpackExact(FILE_HEADER_FORMAT, h)[9] == Double(h[44..52])
    ensures UnpackExact(FILE_HEADER_FORMAT, h)[10] == Int(DecodeInt32(h[52..56]))
    ensures UnpackExact(FILE_HEADER_FORMAT, h)[11] == Int(DecodeInt32(h[56..60]))
    ensures UnpackExact(FILE_HEADER_FORMAT, h)[12] == Int(DecodeInt32(h[60..64]))
    ensures UnpackExact(FILE_HEADER_FORMAT, h)[13] == Int(DecodeInt32(h[64..68]))
  {
    FormatSizes();
    UnpackByTable(FILE_HEADER_FORMAT, FILE_HEADER_OFFSETS, h, 7);
    UnpackByTable(FILE_HEADER_FORMAT, FILE_HEADER_OFFSETS, h, 8);
    UnpackByTable(FILE_HEADER_FORMAT, FILE_HEADER_OFFSETS, h, 9);
    UnpackByTable(FILE_HEADER_FORMAT, FILE_HEADER_OFFSETS, h, 10);
    UnpackByTable(FILE_HEADER_FORMAT, FILE_HEADER_OFFSETS, h, 11);
    UnpackByTable(FILE_HEADER_FORMAT, FILE_HEADER_OFFSETS, h, 12);
    UnpackByTable(FILE_HEADER_FORMAT, FILE_HEADER_OFFSETS, h, 13);
  }

  /** `read_channel_header`: a channel header is 96 bytes unpacked field by field. */
  function ReadChannelHeader(file: File, offset: nat): (r: Result<seq<Field>>)
    ensures r.Ok? <==> offset + CHANNEL_HEADER_BYTES <= |file|
    ensures r.Err? ==> r.error == StructError
    ensures r.Ok? ==> |file[offset..offset + CHANNEL_HEADER_BYTES]| == FormatSize(CHANNEL_HEADER_FORMAT)
    ensures r.Ok? ==> r.value == UnpackExact(CHANNEL_HEADER_FORMAT, file[offset..offset + CHANNEL_HEADER_BYTES])
  {
    FormatSizes();
    var region := ReadRegion(file, offset, CHANNEL_HEADER_BYTES);
    assert offset + CHANNEL_HEADER_BYTES <= |file| ==> region == file[offset..offset + CHANNEL_HEADER_BYTES];
    Unpack(CHANNEL_HEADER_FORMAT, region)
  }

  /** The 6 fields of a channel header and the exact bytes each comes from. */
  lemma ChannelHeaderLayout(h: seq<Byte>)
    requires |h| == CHANNEL_HEADER_BYTES
    ensures |h| == FormatSize(CHANNEL_HEADER_FORMAT)
    ensures UnpackExact(CHANNEL_HEADER_FORMAT, h) ==
      [Raw(h[0..32]),        // title
       Raw(h[32..64]),       // units
       Double(h[64..72]),    // scale
       Double(h[72..80]),    // offset
       Double(h[80..88]),    // RangeHigh
       Double(h[88..96])]    // RangeLow
  {
    FormatSizes();
    UnpackByTable(CHANNEL_HEADER_FORMAT, CHANNEL_HEADER_OFFSETS, h, 0);
    UnpackByTable(CHANNEL_HEADER_FORMAT, CHANNEL_HEADER_OFFSETS, h, 1);
    UnpackByTable(CHANNEL_HEADER_FORMAT, CHANNEL_HEADER_OFFSETS, h, 2);
    UnpackByTable(CHANNEL_HEADER_FORMAT, CHANNEL_HEADER_OFFSETS, h, 3);
    UnpackByTable(CHANNEL_HEADER_FORMAT, CHANNEL_HEADER_OFFSETS, h, 4);
    UnpackByTable(CHANNEL_HEADER_FORMAT, CHANNEL_HEADER_OFFSETS, h, 5);
  }

  /** A channel header whose title and units are NUL-padded text decodes to that text. */
  lemma PaddedChannelHeader(h: seq<Byte>, title: string, units: string)
    requires |h| == CHANNEL_HEADER_BYTES
    requires NUL !in title && IsByteText(title) && |title| <= 32
    requires NUL !in units && IsByteText(units) && |units| <= 32
    requires h[0..32] == PaddedText(title, 32 - |title|) && h[32..64] == PaddedText(units, 32 - |units|)
    ensures |h| == FormatSize(CHANNEL_HEADER_FORMAT)
    ensures |DecodedList(UnpackExact(CHANNEL_HEADER_FORMAT, h), true)| == 6
    ensures DecodedList(UnpackExact(CHANNEL_HEADER_FORMAT, h), true)[0] == Text(title)
    ensures DecodedList(UnpackExact(CHANNEL_HEADER_FORMAT, h), true)[1] == Text(units)
  {
    FormatSizes();
    UnpackByTable(CHANNEL_HEADER_FORMAT, CHANNEL_HEADER_OFFSETS, h, 0);
    UnpackByTable(CHANNEL_HEADER_FORMAT, CHANNEL_HEADER_OFFSETS, h, 1);
    PaddedField(title, 32 - |title|);
    PaddedField(units, 32 - |units|);
  }

  /** A normalised channel header: title and units become NUL-free text of at most 32 characters,
      and the four doubles stay the 8-byte words at their offsets. */
  lemma DecodedChannelHeader(h: seq<Byte>)
    requires |h| == CHANNEL_HEADER_BYTES
    ensures |h| == FormatSize(CHANNEL_HEADER_FORMAT)
    ensures var fs := DecodedList(UnpackExact(CHANNEL_HEADER_FORMAT, h), true);
      |fs| == 6 &&
      fs[0].Text? && NUL !in fs[0].chars && |fs[0].chars| <= 32 &&
      fs[1].Text? && NUL !in fs[1].chars && |fs[1].chars| <= 32 &&
      fs[2] == Double(h[64..72]) && fs[3] == Double(h[72..80]) &&
      fs[4] == Double(h[80..88]) && fs[5] == Double(h[88..96])
  {
    ChannelHeaderLayout(h);
    var u := UnpackExact(CHANNEL_HEADER_FORMAT, h);
    DecodedListShape(u, true, 0);
    DecodedListShape(u, true, 1);
    DecodedListShape(u, true, 2);
    DecodedListShape(u, true, 3);
    DecodedListShape(u, true, 4);
    DecodedListShape(u, true, 5);
  }

  /** The docstring example of `read_channel_header`: `['dBx/dt', 'mTesla per second', ...]`. */
  lemma ChannelHeaderExample(h: seq<Byte>)
    requires |h| == CHANNEL_HEADER_BYTES
    requires h[0..32] == PaddedText("dBx/dt", 26) && h[32..64] == PaddedText("mTesla per second", 15)
    ensures |h| == FormatSize(CHANNEL_HEADER_FORMAT)
    ensures DecodedList(UnpackExact(CHANNEL_HEADER_FORMAT, h), true)[..2] ==
      [Text("dBx/dt"), Text("mTesla per second")]
  {
    PaddedChannelHeader(h, "dBx/dt", "mTesla per second");
  }

  /** Part `[i, j)` of the region of `len` bytes at `off` is the file's `[off + i, off + j)`. */
  lemma SliceOfRegion(file: File, off: nat, len: nat, i: nat, j: nat)
    requires off + len <= |file| && i <= j <= len
    ensures file[off..off + len][i..j] == file[off + i..off + j]
  {
    var region := file[off..off + len];
    assert forall k :: 0 <= k < j - i ==> region[i..j][k] == file[off + i + k];
  }

  /** Where channel header `n` starts: right after the file header and the `n` headers before it. */
  function ChannelHeaderOffset(n: nat): (off: nat)
    ensures off >= FILE_HEADER_BYTES
  {
    FILE_HEADER_BYTES + n * CHANNEL_HEADER_BYTES
  }

  /** Channel header regions follow one another with no gap and no overlap,
      and the six of them end exactly where the samples begin. */
  lemma ChannelRegions(m: nat, n: nat)
    ensures ChannelHeaderOffset(n) + CHANNEL_HEADER_BYTES == ChannelHeaderOffset(n + 1)
    ensures m < n ==> ChannelHeaderOffset(m) + CHANNEL_HEADER_BYTES <= ChannelHeaderOffset(n)
    ensures m != n ==> (ChannelHeaderOffset(m) + CHANNEL_HEADER_BYTES <= ChannelHeaderOffset(n) ||
                        ChannelHeaderOffset(n) + CHANNEL_HEADER_BYTES <= ChannelHeaderOffset(m))
    ensures ChannelHeaderOffset(N_CHANNELS) == DATA_OFFSET == 644
  {
  }

  /** Channel header `n` as `read_channel_headers` returns it: unpacked, then text-normalised. */
  function ChannelHeaderAt(file: File, n: nat): (fs: seq<Field>)
    requires ChannelHeaderOffset(n + 1) <= |file|
    ensures var off := ChannelHeaderOffset(n);
      |fs| == 6 &&
      fs[0].Text? && NUL !in fs[0].chars && |fs[0].chars| <= 32 &&
      fs[1].Text? && NUL !in fs[1].chars && |fs[1].chars| <= 32 &&
      fs[2] == Double(file[off + 64..off + 72]) && fs[3] == Double(file[off + 72..off + 80]) &&
      fs[4] == Double(file[off + 80..off + 88]) && fs[5] == Double(file[off + 88..off + 96])
  {
    FormatSizes();
    var off := ChannelHeaderOffset(n);
    var h := file[off..off + CHANNEL_HEADER_BYTES];
    DecodedChannelHeader(h);
    SliceOfRegion(file, off, CHANNEL_HEADER_BYTES, 64, 72);
    SliceOfRegion(file, off, CHANNEL_HEADER_BYTES, 72, 80);
    SliceOfRegion(file, off, CHANNEL_HEADER_BYTES, 80, 88);
    SliceOfRegion(file, off, CHANNEL_HEADER_BYTES, 88, 96);
    DecodedList(UnpackExact(CHANNEL_HEADER_FORMAT, file[off..off + CHANNEL_HEADER_BYTES]), true)
  }

  /** `headers[n]` is channel header `n` of `file`, for every `n`. */
  predicate HeadersAsRead(file: File, headers: seq<seq<Field>>): (ok: bool)
    ensures ok ==> headers == [] || FILE_HEADER_BYTES + |headers| * CHANNEL_HEADER_BYTES <= |file|
    ensures ok ==> forall n :: 0 <= n < |headers| ==> |headers[n]| == 6
  {
    (headers != [] ==> ChannelHeaderOffset(|headers|) <= |file|) &&
    forall n :: 0 <= n < |headers| ==> headers[n] == ChannelHeaderAt(file, n)
  }

  lemma HeadersAsReadAppend(file: File, headers: seq<seq<Field>>, h: seq<Field>)
    requires HeadersAsRead(file, headers)
    requires ChannelHeaderOffset(|headers| + 1) <= |file| && h == ChannelHeaderAt(file, |headers|)
    ensures HeadersAsRead(file, headers + [h])
  {
    var hs := headers + [h];
    forall n | 0 <= n < |hs|
      ensures hs[n] == ChannelHeaderAt(file, n)
    {
      if n < |headers| {
        assert hs[n] == headers[n];
      }
    }
  }

  /** `read_channel_headers`: reads headers 0 .. nChannels - 1 in turn, stopping at the first short read. */
  method ReadChannelHeaders(file: File, nChannels: int) returns (r: Result<seq<seq<Field>>>)
    ensures r.Ok? <==> nChannels <= 0 || ChannelHeaderOffset(nChannels) <= |file|
    ensures r.Err? ==> r.error == StructError
    ensures r.Ok? ==> |r.value| == (if nChannels <= 0 then 0 else nChannels)
    ensures r.Ok? ==> HeadersAsRead(file, r.value)
  {
    var allChannels: seq<seq<Field>> := [];
    var n := 0;
    while n < nChannels
      invariant 0 <= n <= (if nChannels <= 0 then 0 else nChannels)
      invariant |allChannels| == n
      invariant ChannelHeaderOffset(n) <= |file| || n == 0
      invariant HeadersAsRead(file, allChannels)
    {
      var offset := FILE_HEADER_BYTES + n * CHANNEL_HEADER_BYTES;
      var channel := ReadChannelHeader(file, offset);
      if channel.Err? {
        ChannelRegions(n, nChannels);
        return Err(channel.error);
      }
      var decoded := DecodeByteList(channel.value, true);
      assert ChannelHeaderOffset(n + 1) <= |file| && decoded == ChannelHeaderAt(file, n);
      HeadersAsReadAppend(file, allChannels, decoded);
      allChannels := allChannels + [decoded];
      n := n + 1;
    }
    r := Ok(allChannels);
    assert r.value == allChannels;
  }

  /** `np.fromfile(f, dtype='<f4', count=count)` after seeking to `offset`: whole 4-byte
      words only, at most `count` of them (a negative count reads to the end). */
  function ReadSamples(file: File, offset: nat, count: int): (words: seq<seq<Byte>>)
    ensures |words| == (var avail := if offset <= |file| then (|file| - offset) / 4 else 0;
                        if count < 0 then avail else Min(count, avail))
    ensures count >= 0 ==> |words| <= count
    ensures count >= 0 ==> (|words| == count <==> count == 0 || offset + 4 * count <= |file|)
    ensures forall j :: 0 <= j < |words| ==>
              offset + 4 * j + 4 <= |file| && words[j] == file[offset + 4 * j..offset + 4 * j + 4]
  {
    var available := if offset <= |file| then (|file| - offset) / 4 else 0;
    var n := if count < 0 then available else Min(count, available);
    assert offset <= |file| ==> 4 * available <= |file| - offset;
    seq(n, j requires 0 <= j < n => file[offset + 4 * j..offset + 4 * j + 4])
  }

  /** `read_time_tags` on a decoded file header: secPerTick, year, month, day, hour, minute,
      seconds (list positions 2 to 8) and samplesPerChannel (position 11). */
  function TimeTags(header: seq<Field>): (tags: seq<Field>)
    requires |header| == |FILE_HEADER_FORMAT|
    ensures |tags| == 8
    ensures forall k :: 0 <= k < 7 ==> tags[k] == header[k + 2]
    ensures tags[7] == header[SAMPLES_PER_CHANNEL_FIELD]
  {
    header[2..9] + [header[SAMPLES_PER_CHANNEL_FIELD]]
  }

  /** Text normalisation of a file header only touches the magic: every numeric field keeps its value. */
  lemma DecodedFileHeader(h: seq<Byte>, fs: seq<Field>)
    requires |h| == FILE_HEADER_BYTES
    requires |h| == FormatSize(FILE_HEADER_FORMAT) && fs == UnpackExact(FILE_HEADER_FORMAT, h)
    ensures |DecodedList(fs, true)| == |FILE_HEADER_FORMAT|
    ensures DecodedList(fs, true)[0] == Text(StripNul(DecodeText(h[0..4])))
    ensures DecodedList(fs, true)[1] == fs[1] && DecodedList(fs, true)[2] == fs[2]
    ensures DecodedList(fs, true)[3] == fs[3] && DecodedList(fs, true)[4] == fs[4]
    ensures DecodedList(fs, true)[5] == fs[5] && DecodedList(fs, true)[6] == fs[6]
    ensures DecodedList(fs, true)[7] == fs[7] && DecodedList(fs, true)[8] == fs[8]
    ensures DecodedList(fs, true)[9] == fs[9] && DecodedList(fs, true)[10] == fs[10]
    ensures DecodedList(fs, true)[11] == fs[11] && DecodedList(fs, true)[12] == fs[12]
    ensures DecodedList(fs, true)[13] == fs[13]
  {
    FileHeaderLayout(h, fs);
  }

  /** The time tags of the header at the start of `file`, secPerTick to hour, and the bytes each comes from. */
  lemma TimeTagsFront(file: File)
    requires FILE_HEADER_BYTES <= |file|
    ensures |file[0..FILE_HEADER_BYTES]| == FormatSize(FILE_HEADER_FORMAT)
    ensures var tags := TimeTags(DecodedList(UnpackExact(FILE_HEADER_FORMAT, file[0..FILE_HEADER_BYTES]), true));
      tags[0] == Double(file[8..16]) && tags[1] == Int(DecodeInt32(file[16..20])) &&
      tags[2] == Int(DecodeInt32(file[20..24])) && tags[3] == Int(DecodeInt32(file[24..28])) &&
      tags[4] == Int(DecodeInt32(file[28..32]))
  {
    var h := file[0..FILE_HEADER_BYTES];
    FileHeaderFront(h);
    var fs := UnpackExact(FILE_HEADER_FORMAT, h);
    DecodedListShape(fs, true, 2);
    DecodedListShape(fs, true, 3);
    DecodedListShape(fs, true, 4);
    DecodedListShape(fs, true, 5);
    DecodedListShape(fs, true, 6);
    assert h[8..16] == file[8..16] && h[16..20] == file[16..20] && h[20..24] == file[20..24];
    assert h[24..28] == file[24..28] && h[28..32] == file[28..32];
  }

  /** The time tags of the header at the start of `file`, minute to samplesPerChannel, and the bytes each comes from. */
  lemma TimeTagsBack(file: File)
    requires FILE_HEADER_BYTES <= |file|
    ensures |file[0..FILE_HEADER_BYTES]| == FormatSize(FILE_HEADER_FORMAT)
    ensures var tags := TimeTags(DecodedList(UnpackExact(FILE_HEADER_FORMAT, file[0..FILE_HEADER_BYTES]), true));
      tags[5] == Int(DecodeInt32(file[32..36])) && tags[6] == Double(file[36..44]) &&
      tags[7] == Int(DecodeInt32(file[56..60]))
  {
    var h := file[0..FILE_HEADER_BYTES];
    FileHeaderBack(h);
    var fs := UnpackExact(FILE_HEADER_FORMAT, h);
    DecodedListShape(fs, true, 7);
    DecodedListShape(fs, true, 8);
    DecodedListShape(fs, true, 11);
    assert h[32..36] == file[32..36] && h[36..44] == file[36..44] && h[56..60] == file[56..60];
  }

  /** `read_time_tags`: the file header read again from offset 0, text-normalised, and the
      time tags picked out of it. */
  method ReadTimeTags(file: File) returns (r: Result<seq<Field>>)
    ensures r.Ok? <==> FILE_HEADER_BYTES <= |file|
    ensures r.Err? ==> r.error == StructError
    ensures r.Ok? ==> |r.value| == 8
    ensures r.Ok? ==> r.value[0] == Double(file[8..16])             // secPerTick
    ensures r.Ok? ==> r.value[1] == Int(DecodeInt32(file[16..20]))  // year
    ensures r.Ok? ==> r.value[2] == Int(DecodeInt32(file[20..24]))  // month
    ensures r.Ok? ==> r.value[3] == Int(DecodeInt32(file[24..28]))  // day
    ensures r.Ok? ==> r.value[4] == Int(DecodeInt32(file[28..32]))  // hour
    ensures r.Ok? ==> r.value[5] == Int(DecodeInt32(file[32..36]))  // minute
    ensures r.Ok? ==> r.value[6] == Double(file[36..44])            // seconds
    ensures r.Ok? ==> r.value[7] == Int(DecodeInt32(file[56..60]))  // samplesPerChannel
  {
    var fileHeader := ReadFileHeader(file, 0);
    if fileHeader.Err? {
      return Err(fileHeader.error);
    }
    var listFileHeader := DecodeByteList(fileHeader.value, true);
    TimeTagsFront(file);
    TimeTagsBack(file);
    r := Ok(TimeTags(listFileHeader));
  }
}
