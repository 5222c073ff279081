# LabChart decoder: a verified model of `labchartio.py`

`labchartio.py` reads LabChart binary recordings from an MRI field dosimeter. A file holds three parts:

- a 68-byte file header, packed as `'<4sidiiiiiddiiii'`;
- six 96-byte channel headers, packed as `'<32s32sdddd'`;
- interleaved 4-byte samples, six per row.

The decoder does the following:

- it unpacks the headers;
- it turns byte strings into text with the NULs removed;
- it checks that the full sample count was read;
- it reshapes the samples into six named columns (dBx, dBy, dBz, Bx, By, Bz);
- it indexes the rows every 20 ms from the header's start time;
- it groups the rows into right-closed one-second buckets.

The model is a set of Dafny modules:

| module | file | models |
|---|---|---|
| `Results` | `results.dfy` | the two ways decoding fails: `struct.error` on a short read, and the failed data check |
| `Bytes` | `bytes.dfy` | little-endian 32-bit two's-complement integers |
| `Struct` | `struct_format.dfy` | `struct.unpack` for `<` formats made of `Ns`, `i` and `d` codes; its inverse `Pack`, used only to state the round trips |
| `Text` | `text.dfy` | `bytes.decode()`, the NUL removal `re.sub('\x00', '', …)`, and `decode_byte_list` as a loop over an array copy |
| `LabChart` | `layout.dfy` | the two header layouts, `read_file_header`, `read_channel_header`, `read_channel_headers` (a loop), `read_data_numpy`, `read_time_tags` |
| `Timing` | `timing.dfy` | `create_timestamp_index` as millisecond offsets, and the bucket grouping done by `resample('S', closed='right')` |
| `Channels` | `channels.dfy` | `read_channels`: the data check, the reshape, the named columns, the frame and its resampling |

Representation choices:

- A file is the sequence of its bytes, and reading a region is slicing that sequence. A read past the end comes back short, which makes the following `struct.unpack` fail with `StructError`.
- Double-precision fields and the `<f4` samples are kept as their opaque byte words.
- A timestamp is a millisecond offset from the start instant.
- `Resample` yields, for each column, the member rows of each bucket, which is the input that `.mean()` averages.

## Behaviour worth knowing

- The channel count is the literal 6 (`labchartio.py:172`, `labchartio.py:181`). The header's nChannels field is never consulted.
- The sample spacing is the literal 20 ms (`labchartio.py:231`). secPerTick is never consulted.
- `resample('S', closed='right')` (`labchartio.py:222`) puts a timestamp in the bucket `(s - 1 s, s s]`, and pandas labels that bucket by its **left** edge, `s - 1` seconds (`BucketLabels`).
- The start instant falls on a whole second. Sample 0 therefore sits alone in bucket `(-1 s, 0]`. One hundred samples make **three** buckets, holding 1, 50 and 49 samples (`HundredSamples`).
- `np.array(timestamp[1:7], dtype=int)` (`labchartio.py:227`) truncates the seconds field toward zero, so 30.7 seconds starts the index at :30.

## Model

| member | source | states |
|---|---|---|
| Bytes.LittleEndian | labchartio.py:70 | The `<` byte order: the value of `n` bytes is below 256^n and its lowest byte is the first one. |
| Bytes.LittleEndianRoundTrip | labchartio.py:70 | Writing back the little-endian value of any byte string gives the same bytes. |
| Bytes.DecodeInt32 | labchartio.py:70 | An `i` field read from 4 bytes is a signed 32-bit value, negative exactly when the top bit of the last byte is set. |
| Bytes.DecodeInt32Wraps | labchartio.py:70 | The signed value equals the unsigned little-endian value modulo 2^32, and the two coincide when it is not negative. |
| Bytes.EncodeInt32 | labchartio.py:70 | Every signed 32-bit integer has 4 bytes that decode back to it. |
| Bytes.Int32BytesRoundTrip | labchartio.py:70 | Decoding 4 bytes and encoding the integer gives the same 4 bytes. |
| Struct.DecodeField | labchartio.py:70 | A field decoded by a code has the type and size the code stands for: bytes of the stated width, an int32, or an 8-byte double. |
| Struct.EncodeField | labchartio.py:70 | Re-encoding a conforming field takes exactly the code's width and decodes back to the field. |
| Struct.FieldBytesRoundTrip | labchartio.py:70 | Decoding a field's bytes and encoding it again gives the bytes back. |
| Struct.FieldOffsetBounds | labchartio.py:70 | Every field lies inside the record: its offset plus its width is at most the format's size. |
| Struct.OffsetTableAgrees | labchartio.py:70 | A table of running offsets gives, at each entry, the same start offset as the sum of the widths before it. |
| Struct.OffsetTableSize | labchartio.py:70 | The last entry of an offset table is the record size (`struct.calcsize`). |
| Struct.FieldBytes | labchartio.py:70 | The bytes a field is read from have exactly the field's width. |
| Struct.UnpackExact | labchartio.py:70 | Unpacking yields one value per format code. |
| Struct.UnpackConforms | labchartio.py:70 | Every unpacked value has the type of its code. |
| Struct.Unpack | labchartio.py:70 | Unpacking succeeds exactly when the buffer is the format's size; otherwise it is a `struct.error`. |
| Struct.Pack | labchartio.py:70 | Packing conforming fields produces exactly the format's size. |
| Struct.UnpackHead | labchartio.py:70 | The first value is decoded from the first field-width bytes. |
| Struct.UnpackShift | labchartio.py:70 | Value `j + 1` of a record is value `j` of the record read after the first field. |
| Struct.FieldBytesShift | labchartio.py:70 | Field `j + 1` of a record covers the same bytes as field `j` of the record that starts after the first field. |
| Struct.UnpackTail | labchartio.py:70 | The values after the first are the record of the remaining codes, read from the bytes after the first field. |
| Struct.UnpackPack | labchartio.py:70 | Unpacking packed fields gives the fields back: `unpack(pack(fs)) == fs`. |
| Struct.UnpackExactPack | labchartio.py:70 | The same round trip on the exact-size unpacker. |
| Struct.PackUnpack | labchartio.py:70 | Packing unpacked values gives the bytes back: `pack(unpack(b)) == b`. |
| Text.DecodeText | labchartio.py:79 | Decoding keeps the length, and character `i` has the code of byte `i`. |
| Text.EncodeText | labchartio.py:79 | Text of code points below 256 has bytes of the same length that decode back to it. |
| Text.TextBytesRoundTrip | labchartio.py:79 | Decoding bytes and encoding the text gives the same bytes. |
| Text.StripNul | labchartio.py:81 | The result contains no NUL and is no longer than the input. |
| Text.StripNulAppend | labchartio.py:81 | Stripping a concatenation is the concatenation of the stripped parts, so the kept characters stay in their order. |
| Text.StripNulKeeps | labchartio.py:81 | Every character other than NUL occurs as often after stripping as before. |
| Text.StripNulNoNul | labchartio.py:81 | Text without NUL is left unchanged. |
| Text.StripNulIdempotent | labchartio.py:81 | Stripping twice is the same as stripping once. |
| Text.StripNulInterior | labchartio.py:81 | A NUL in the middle of text is removed just as trailing padding is. |
| Text.StripNulPadding | labchartio.py:81 | Any run of NUL padding strips to nothing. |
| Text.StripNulPadded | labchartio.py:81 | NUL-free text followed by NUL padding strips back to the text. |
| Text.NulPadding | labchartio.py:81 | `n` characters of padding, every one a NUL. |
| Text.ZeroBytes | labchartio.py:116-120 | `n` bytes of padding, every one zero. |
| Text.PaddedText | labchartio.py:79-81 | The bytes of NUL-padded text decode to the text followed by the NULs. |
| Text.PaddedField | labchartio.py:78-82 | A NUL-padded bytes field normalises to the text without its padding. |
| Text.NormalizeField | labchartio.py:77-83 | A `bytes` element becomes text no longer than its bytes, the same code points when NULs are kept, and NUL-free when they are stripped. Any other element is left as it is. |
| Text.DecodedList | labchartio.py:75-85 | The normalised list has the input's length. |
| Text.DecodedListShape | labchartio.py:75-85 | Non-bytes elements are unchanged at their index. Bytes elements become text. With `strip_null` that text is the decoded bytes without NULs, so it holds no NUL; without it, the text is the decoded bytes. |
| Text.DecodedListIdempotent | labchartio.py:75-85 | Normalising an already normalised list changes nothing. |
| Text.DecodeByteList | labchartio.py:75-85 | The loop over a copy of the list returns the normalised list, the input being a value it cannot modify. |
| LabChart.FormatSizes | labchartio.py:65-70 | The file header format spans 68 bytes and the channel header format 96, with the field offsets listed in the layout tables. |
| LabChart.UnpackByTable | labchartio.py:70 | Field `i` of a record is decoded from bytes `[offs[i], offs[i+1])` of its offset table. |
| LabChart.ReadRegion | labchartio.py:64-65 | Seeking and reading returns the bytes at the offset, and fewer than asked for, or none, past the end of the file. |
| LabChart.ReadFileHeader | labchartio.py:61-72 | Succeeds exactly when 68 bytes are available at the offset, and then is the 14-field unpacking of those bytes; otherwise a `struct.error`. |
| LabChart.FileHeaderLayout | labchartio.py:65-70 | The 14 fields at their byte ranges: magic [0,4), version [4,8), secPerTick [8,16), year, month, day, hour and minute [16,36) in 4-byte steps, seconds [36,44), trigger [44,52), nChannels [52,56), samplesPerChannel [56,60), timeChannel [60,64), dataFormat [64,68). Integers are little-endian int32. |
| LabChart.FileHeaderFront | labchartio.py:65-70 | Fields magic to hour at their byte ranges. |
| LabChart.FileHeaderBack | labchartio.py:65-70 | Fields minute to dataFormat at their byte ranges. |
| LabChart.ReadChannelHeader | labchartio.py:98-122 | Succeeds exactly when 96 bytes are available at the offset, and then is the 6-field unpacking of those bytes; otherwise a `struct.error`. |
| LabChart.ChannelHeaderLayout | labchartio.py:116-120 | The six fields: title [0,32), units [32,64), then scale, offset, RangeHigh, RangeLow in 8-byte steps. |
| LabChart.PaddedChannelHeader | labchartio.py:110-120 | A header whose title and units are NUL-padded text decodes to exactly that title and those units. |
| LabChart.DecodedChannelHeader | labchartio.py:92-93 | A normalised channel header has six fields: title and units are NUL-free text of at most 32 characters, and the four doubles are the 8-byte words at 64, 72, 80 and 88. |
| LabChart.ChannelHeaderExample | labchartio.py:104-110 | The docstring example: the title and units decode to `'dBx/dt'` and `'mTesla per second'`. |
| LabChart.ChannelHeaderOffset | labchartio.py:91 | Every channel header starts after the 68-byte file header. |
| LabChart.ChannelHeaderAt | labchartio.py:91-93 | Channel header `n` as read and normalised: NUL-free title and units of at most 32 characters, and the four doubles are the file's 8-byte words at `68 + 96 n + 64` onwards. |
| LabChart.HeadersAsRead | labchartio.py:89-94 | A list of headers matching the file fits inside it, 68 + 96 bytes per header, and every entry has six fields. |
| LabChart.ChannelRegions | labchartio.py:91 | Header regions are contiguous and pairwise disjoint. With six channels they end exactly at the data offset 644. |
| LabChart.HeadersAsReadAppend | labchartio.py:90-94 | Appending the next header read at its offset keeps every entry equal to the header at its own offset. |
| LabChart.ReadChannelHeaders | labchartio.py:88-96 | Succeeds exactly when all requested headers fit in the file. It then returns one normalised header per channel, read at `68 + 96 n`; otherwise a `struct.error`. |
| LabChart.ReadSamples | labchartio.py:125-132 | Reads whole 4-byte words from the offset: all the whole words left for a negative count, otherwise `count` of them or as many as the file still holds when it runs short. Word `j` is the bytes at `offset + 4 j`. |
| LabChart.TimeTags | labchartio.py:137-140 | The tags are header fields 2 to 8, then field 11. |
| LabChart.DecodedFileHeader | labchartio.py:135-136 | Normalising the file header turns only the magic into text; every numeric field keeps its value. |
| LabChart.TimeTagsFront | labchartio.py:134-140 | Tags 0 to 4 are secPerTick, year, month, day and hour from their byte ranges. |
| LabChart.TimeTagsBack | labchartio.py:134-140 | Tags 5 to 7 are minute, seconds and samplesPerChannel from their byte ranges. |
| LabChart.ReadTimeTags | labchartio.py:134-140 | Succeeds exactly when the file holds a header. It then returns secPerTick, year, month, day, hour, minute, seconds and samplesPerChannel, each from its byte range; otherwise a `struct.error`. |
| Timing.TimestampIndex | labchartio.py:231 | One entry per row: entry 0 is the start, and each entry is 20 ms after the one before. |
| Timing.TimestampIndexIncreasing | labchartio.py:231 | The index is strictly increasing. |
| Timing.DateInfo | labchartio.py:227 | The start instant's six fields are exactly tags 1 to 6, `timestamp[1:7]`. |
| Timing.CreateTimestampIndex | labchartio.py:226-233 | The start comes from tags 1 to 6 (year to seconds). The index has one entry per row, starts at 0 and steps by 20 ms: it is the `TimestampIndex` grid. |
| Timing.NumBuckets | labchartio.py:222 | `n` samples from a whole second make `floor((n + 48) / 50) + 1` buckets, and none when `n` is 0. |
| Timing.Bucket | labchartio.py:222 | Every bucket holds between 1 and 50 rows. |
| Timing.BucketOf | labchartio.py:222 | Offset `t` falls in the right-closed bucket `(s - 1 s, s s]` with `s = ceil(t / 1000)`. |
| Timing.BucketOfUnique | labchartio.py:222 | No other right-closed bucket holds that offset. |
| Timing.SampleBucketBounds | labchartio.py:222-231 | Sample `i` falls in the bucket whose 50 sample slots `(50 (s-1), 50 s]` hold `i`. |
| Timing.SampleBucket | labchartio.py:222-231 | Sample `i` falls in bucket `ceil(i / 50)`. |
| Timing.BucketEdge | labchartio.py:222 | The boundary rows of the buckets lie within the column. |
| Timing.BucketMembers | labchartio.py:222 | Rows `[edge k, edge k+1)` are exactly the samples whose timestamp falls in bucket `k`. |
| Timing.BucketSizes | labchartio.py:222-231 | No bucket is empty, and the last ends at the last row. Sample 0 is alone in its bucket, each bucket between the first and the last holds 50 samples, and the last holds at most 50. |
| Timing.GroupByBucket | labchartio.py:222 | A column has one group per bucket. |
| Timing.GroupByBucketPartitions | labchartio.py:222 | The groups in order give back the column, so every row is in exactly one bucket. |
| Timing.ConcatPrefix | labchartio.py:222 | The first `k` groups together are the rows before bucket `k` begins. |
| Timing.BucketLabels | labchartio.py:222 | One label per bucket. |
| Timing.BucketLabelMembers | labchartio.py:222 | Every member of bucket `k` lies in the second after its label, the label itself excluded, because pandas labels a right-closed bucket by its left edge. |
| Timing.HundredSamples | labchartio.py:222-231 | One hundred samples make three buckets: sample 0, samples 1 to 50, and samples 51 to 99. |
| Channels.Reshape | labchartio.py:197-200 | `(rows, 6)` reshape: `rows` rows of six values, with entry `[r][c]` equal to `flat[6 r + c]`. |
| Channels.ReshapeLossless | labchartio.py:200 | The rows read one after another give back the flat data. |
| Channels.ColumnOf | labchartio.py:209-216 | Column `k` has one entry per row. |
| Channels.Demultiplex | labchartio.py:200-216 | Column `k` at row `r` is flat value `6 r + k`, and every column has `rows` entries. |
| Channels.DataCheck | labchartio.py:195 | The check holds exactly when `6 spc <= size < 6 (spc + 1)`, so `int(size / 6)` is spc. |
| Channels.DataCheckExact | labchartio.py:195 | When at most `6 spc` values were read, the check passes exactly when all of them were read and spc is not negative. |
| Channels.Resample | labchartio.py:222 | Keeps the start and the column names, and labels the buckets by their left edges. |
| Channels.ResampleBuckets | labchartio.py:222 | Bucket `k` of a column holds in order exactly the rows whose timestamps fall in it, and the buckets together are the column. |
| Channels.ChannelSamples | labchartio.py:209-216 | A channel has samplesPerChannel samples. Row `r` of channel `c` is sample `6 r + c` of the data block. |
| Channels.ColumnIsChannel | labchartio.py:200-216 | Column `c` of the reshaped data is channel `c`'s samples. |
| Channels.HeaderSamplesPerChannel | labchartio.py:184 | Element 11 of the decoded header is the int32 at bytes [56,60). |
| Channels.SamplesPerChannel | labchartio.py:184 | samplesPerChannel is a signed 32-bit value, negative exactly when the top bit of byte 59 is set. |
| Channels.FileStart | labchartio.py:227 | The header's start instant has five int32 calendar fields and an 8-byte seconds word. |
| Channels.SampleWord | labchartio.py:130 | A sample of the data block is one 4-byte `<f4` word. |
| Channels.DataOutcome | labchartio.py:187-195 | Reading `6 spc` samples at offset 644 passes the check exactly on decodable files, and then yields all of them. |
| Channels.TimeTagsStart | labchartio.py:227-229 | The calendar tags give the header's start instant. |
| Channels.NamedColumns | labchartio.py:209-216 | Six columns named dBx, dBy, dBz, Bx, By, Bz in that order, each with one entry per row. |
| Channels.ChannelFrame | labchartio.py:218-220 | The table is on the 20 ms grid, with every column as long as the index. |
| Channels.ResampledChannels | labchartio.py:218-222 | Resampling the table keeps the start, labels the buckets by their left edges, and groups each channel's own samples under its name. |
| Channels.ReadChannels | labchartio.py:143-224 | Succeeds exactly on decodable files. A file shorter than 644 bytes is a `struct.error`, and any other failure is the data check. On success, the result has the header's start instant, the left-edge labels, and six named columns, each the one-second grouping of its channel's samples. |

## Left out

- File I/O: `open`, `seek`, `read` and `np.fromfile`. A file is its byte sequence, a read is a slice, and a short read is a shorter slice.
- IEEE-754 values: secPerTick, seconds, trigger, scale, offset, RangeHigh, RangeLow and the `<f4` samples. They are opaque byte words.
- The arithmetic of `.mean()`: the model yields each bucket's member rows, which are what the mean is taken over.
- Channels.ReadChannels: does not model the ValueError that `datetime(*date_info)` raises for an invalid calendar date. It also does not model the error that `np.array(..., dtype=int)` raises for a seconds value that is not finite. Calendar arithmetic is outside the model, so start instants are not checked.
- Timing.DateInfo: the start instant keeps the seconds field as its 8-byte double. The `int()` truncation to a whole second is described, not computed, because floats are opaque here.
- Text.DecodeText: maps each byte to the code point of the same value, which is what `bytes.decode()` does on ASCII text. Multi-byte UTF-8 and UnicodeDecodeError are not modelled.
- Channels.DataCheck: `int(data.size / 6)` is float division followed by truncation. For any count of samples below 2^53 it equals the integer quotient the model uses. Larger counts cannot come from a 32-bit samplesPerChannel.
- Timing.GroupByBucket: `resample` is modelled only for the table `read_channels` builds, which has a 20 ms index starting on a whole second. Other origins and frequencies are not covered.
- The command-line entry points `write_csv` and `main`, `to_csv`, the echo messages and logging (`labchartio.py:235-254`). These are I/O.
- The module-level CSV read at `labchartio.py:256-258`. It is I/O with no logic.
- `setup.py`, which is packaging only.
