/** `read_channels`: the whole decode of a recording into six named, time-indexed
    channels, grouped into one-second buckets. */
module Channels {
  import opened Bytes
  import opened Results
  import opened Struct
  import opened Text
  import opened LabChart
  import opened Timing

  /** The column names, in the order of the channels in a sample row. */
  const CHANNEL_NAMES: seq<string> := ["dBx", "dBy", "dBz", "Bx", "By", "Bz"]

  /** `np.reshape(data, (rows, 6))`: consecutive runs of six values become rows. */
  function Reshape<T>(flat: seq<T>, rows: nat): (m: seq<seq<T>>)
    requires |flat| == rows * N_CHANNELS
    ensures |m| == rows
    ensures forall r :: 0 <= r < rows ==> |m[r]| == N_CHANNELS
    ensures forall r, c :: 0 <= r < rows && 0 <= c < N_CHANNELS ==> m[r][c] == flat[N_CHANNELS * r + c]
  {
    seq(rows, r requires 0 <= r < rows => flat[N_CHANNELS * r..N_CHANNELS * r + N_CHANNELS])
  }

  /** Reshaping loses and reorders nothing: the rows read one after another are the flat values. */
  lemma {:induction false} ReshapeLossless<T>(flat: seq<T>, rows: nat)
    requires |flat| == rows * N_CHANNELS
    ensures Concat(Reshape(flat, rows)) == flat
  {
    if rows > 0 {
      var m := Reshape(flat, rows);
      var front := flat[..N_CHANNELS * (rows - 1)];
      ReshapeLossless(front, rows - 1);
      forall r | 0 <= r < rows - 1
        ensures m[r] == Reshape(front, rows - 1)[r]
      {
        assert front[N_CHANNELS * r..N_CHANNELS * r + N_CHANNELS] == flat[N_CHANNELS * r..N_CHANNELS * r + N_CHANNELS];
      }
      assert m[..rows - 1] == Reshape(front, rows - 1);
      assert flat == front + m[rows - 1];
    }
  }

  /** `data_2d[:, k]`. */
  function ColumnOf<T>(m: seq<seq<T>>, k: nat): (column: seq<T>)
    requires forall r :: 0 <= r < |m| ==> k < |m[r]|
    ensures |column| == |m|
  {
    seq(|m|, r requires 0 <= r < |m| => m[r][k])
  }

  /** Column `k` at row `r` is flat value `6 r + k`, and every column has one entry per row. */
  lemma Demultiplex<T>(flat: seq<T>, rows: nat, k: nat, r: nat)
    requires |flat| == rows * N_CHANNELS && k < N_CHANNELS && r < rows
    ensures |ColumnOf(Reshape(flat, rows), k)| == rows
    ensures ColumnOf(Reshape(flat, rows), k)[r] == flat[N_CHANNELS * r + k]
  {
  }

  /** The data check `int(data.size / 6) == samplePerChannel`. */
  predicate DataCheck(size: nat, samplesPerChannel: int): (ok: bool)
    ensures ok <==> N_CHANNELS * samplesPerChannel <= size < N_CHANNELS * (samplesPerChannel + 1)
  {
    size / N_CHANNELS == samplesPerChannel
  }

  /** Given that at most `6 * samplesPerChannel` values were read, the check passes exactly when all
      of them were: one missing value is enough to fail it, and a negative count always fails. */
  lemma DataCheckExact(size: nat, samplesPerChannel: int)
    requires samplesPerChannel >= 0 ==> size <= N_CHANNELS * samplesPerChannel
    ensures DataCheck(size, samplesPerChannel) <==>
              samplesPerChannel >= 0 && size == N_CHANNELS * samplesPerChannel
  {
  }

  /** One named column of the table. */
  datatype Series<T> = Series(name: string, values: seq<T>)

  /** `pd.DataFrame(data_channels)` with its timestamp index (offsets from `start` in ms). */
  datatype Frame<T> = Frame(start: StartTime, index: seq<nat>, columns: seq<Series<T>>)

  /** One column after resampling: the member rows of each bucket, which `.mean()` averages. */
  datatype BucketSeries<T> = BucketSeries(name: string, buckets: seq<seq<T>>)

  /** The resampled table: bucket labels (ms from `start`) and the bucketed columns. */
  datatype Resampled<T> = Resampled(start: StartTime, labels: seq<int>, columns: seq<BucketSeries<T>>)

  predicate OnSampleGrid<T>(frame: Frame<T>)
  {
    frame.index == TimestampIndex(|frame.index|) &&
    forall c :: 0 <= c < |frame.columns| ==> |frame.columns[c].values| == |frame.index|
  }

  /** `data.resample('S', closed='right')` ahead of `.mean()`, on a table indexed every 20 ms from a
      whole second: each column's rows go to the right-closed bucket their timestamp falls in. */
  function Resample<T>(frame: Frame<T>): (r: Resampled<T>)
    requires OnSampleGrid(frame)
    ensures r.start == frame.start
    ensures r.labels == BucketLabels(|frame.index|)
    ensures |r.columns| == |frame.columns|
    ensures forall c :: 0 <= c < |frame.columns| ==> r.columns[c].name == frame.columns[c].name
  {
    Resampled(frame.start, BucketLabels(|frame.index|),
      seq(|frame.columns|, c requires 0 <= c < |frame.columns| =>
        BucketSeries(frame.columns[c].name, GroupByBucket(frame.columns[c].values))))
  }

  /** In a resampled column, bucket `k` holds exactly the rows whose timestamps fall in it, in order,
      and the buckets together hold every row once. */
  lemma ResampleBuckets<T>(frame: Frame<T>, c: nat, k: nat, i: nat)
    requires OnSampleGrid(frame) && c < |frame.columns|
    requires k < NumBuckets(|frame.index|) && i < |frame.index|
    ensures Concat(Resample(frame).columns[c].buckets) == frame.columns[c].values
    ensures |Resample(frame).columns[c].buckets| == NumBuckets(|frame.index|)
    ensures (BucketEdge(k, |frame.index|) <= i < BucketEdge(k + 1, |frame.index|)) <==>
              BucketOf(frame.index[i]) == k
    ensures Resample(frame).columns[c].buckets[k] ==
              frame.columns[c].values[BucketEdge(k, |frame.index|)..BucketEdge(k + 1, |frame.index|)]
  {
    GroupByBucketPartitions(frame.columns[c].values);
    BucketMembers(|frame.index|, k, i);
  }

  /** samplesPerChannel as stored in the file header. */
  function SamplesPerChannel(file: File): (count: int)
    requires FILE_HEADER_BYTES <= |file|
    ensures IsInt32(count)
    ensures count < 0 <==> file[59] >= 128
  {
    DecodeInt32(file[56..60])
  }

  /** The start instant the file header describes. */
  function FileStart(file: File): (start: StartTime)
    requires FILE_HEADER_BYTES <= |file|
    ensures IsInt32(start.year) && IsInt32(start.month) && IsInt32(start.day)
    ensures IsInt32(start.hour) && IsInt32(start.minute) && |start.seconds| == 8
  {
    StartTime(DecodeInt32(file[16..20]), DecodeInt32(file[20..24]), DecodeInt32(file[24..28]),
              DecodeInt32(file[28..32]), DecodeInt32(file[32..36]), file[36..44])
  }

  /** The files `read_channels` decodes without raising: all six channel headers are present,
      samplesPerChannel is not negative, and six times that many 4-byte samples follow. */
  predicate Decodable(file: File)
  {
    DATA_OFFSET <= |file| && SamplesPerChannel(file) >= 0 &&
    DATA_OFFSET + 4 * (N_CHANNELS * SamplesPerChannel(file)) <= |file|
  }

  /** The 4-byte sample `j` of the data block. */
  function SampleWord(file: File, j: nat): (word: seq<Byte>)
    requires DATA_OFFSET + 4 * j + 4 <= |file|
    ensures |word| == 4
  {
    file[DATA_OFFSET + 4 * j..DATA_OFFSET + 4 * j + 4]
  }

  /** The samples of channel `c`, one per row: row `r` is sample `6 r + c` of the data block. */
  function ChannelSamples(file: File, c: nat): (s: seq<seq<Byte>>)
    requires Decodable(file) && c < N_CHANNELS
    ensures |s| == SamplesPerChannel(file)
  {
    var rows := SamplesPerChannel(file);
    seq(rows, r requires 0 <= r < rows => SampleWord(file, N_CHANNELS * r + c))
  }

  lemma ColumnIsChannel(file: File, data: seq<seq<Byte>>, c: nat)
    requires Decodable(file) && c < N_CHANNELS
    requires |data| == N_CHANNELS * SamplesPerChannel(file)
    requires forall j :: 0 <= j < |data| ==>
               DATA_OFFSET + 4 * j + 4 <= |file| && data[j] == file[DATA_OFFSET + 4 * j..DATA_OFFSET + 4 * j + 4]
    ensures ColumnOf(Reshape(data, SamplesPerChannel(file)), c) == ChannelSamples(file, c)
  {
  }

  /** samplesPerChannel is element 11 of the decoded file header. */
  lemma HeaderSamplesPerChannel(file: File, fs: seq<Field>)
    requires FILE_HEADER_BYTES <= |file|
    requires |file[0..FILE_HEADER_BYTES]| == FormatSize(FILE_HEADER_FORMAT)
    requires fs == UnpackExact(FILE_HEADER_FORMAT, file[0..FILE_HEADER_BYTES])
    ensures |DecodedList(fs, true)| == |FILE_HEADER_FORMAT|
    ensures DecodedList(fs, true)[SAMPLES_PER_CHANNEL_FIELD] == Int(SamplesPerChannel(file))
  {
    var h := file[0..FILE_HEADER_BYTES];
    FileHeaderLayout(h, fs);
    DecodedFileHeader(h, fs);
    assert h[56..60] == file[56..60];
  }

  /** Reading `6 * samplesPerChannel` samples after the channel headers passes the data check
      exactly on the decodable files, and then yields every one of them. */
  lemma DataOutcome(file: File, data: seq<seq<Byte>>)
    requires DATA_OFFSET <= |file|
    requires data == ReadSamples(file, DATA_OFFSET, N_CHANNELS * SamplesPerChannel(file))
    ensures DataCheck(|data|, SamplesPerChannel(file)) <==> Decodable(file)
    ensures Decodable(file) ==> |data| == N_CHANNELS * SamplesPerChannel(file)
  {
    DataCheckExact(|data|, SamplesPerChannel(file));
  }

  /** The time tags of a file name its start instant. */
  lemma TimeTagsStart(file: File, tags: seq<Field>)
    requires FILE_HEADER_BYTES <= |file| && |tags| == 8
    requires tags[0] == Double(file[8..16]) && tags[1] == Int(DecodeInt32(file[16..20]))
    requires tags[2] == Int(DecodeInt32(file[20..24])) && tags[3] == Int(DecodeInt32(file[24..28]))
    requires tags[4] == Int(DecodeInt32(file[28..32])) && tags[5] == Int(DecodeInt32(file[32..36]))
    requires tags[6] == Double(file[36..44]) && tags[7] == Int(DecodeInt32(file[56..60]))
    ensures TimeTagKinds(tags) && DateInfo(tags) == FileStart(file)
  {
  }

  /** The dictionary `data_channels`: column `k` of the sample rows under the name of channel `k`. */
  function NamedColumns<T>(m: seq<seq<T>>): (columns: seq<Series<T>>)
    requires forall r :: 0 <= r < |m| ==> |m[r]| == N_CHANNELS
    ensures |columns| == N_CHANNELS
    ensures forall c :: 0 <= c < N_CHANNELS ==> columns[c].name == CHANNEL_NAMES[c] && |columns[c].values| == |m|
  {
    seq(N_CHANNELS, c requires 0 <= c < N_CHANNELS => Series(CHANNEL_NAMES[c], ColumnOf(m, c)))
  }

  /** The table `read_channels` builds from a decodable file: one column per channel, indexed
      every 20 ms from the header's start instant. */
  function ChannelFrame(file: File, data: seq<seq<Byte>>): (frame: Frame<seq<Byte>>)
    requires Decodable(file) && |data| == N_CHANNELS * SamplesPerChannel(file)
    ensures OnSampleGrid(frame)
  {
    var rows := SamplesPerChannel(file);
    Frame(FileStart(file), TimestampIndex(rows), NamedColumns(Reshape(data, rows)))
  }

  /** Resampling that table buckets each channel's own samples under the channel's name. */
  lemma ResampledChannels(file: File, data: seq<seq<Byte>>)
    requires Decodable(file)
    requires data == ReadSamples(file, DATA_OFFSET, N_CHANNELS * SamplesPerChannel(file))
    requires |data| == N_CHANNELS * SamplesPerChannel(file)
    ensures Resample(ChannelFrame(file, data)).start == FileStart(file)
    ensures Resample(ChannelFrame(file, data)).labels == BucketLabels(SamplesPerChannel(file))
    ensures |Resample(ChannelFrame(file, data)).columns| == N_CHANNELS
    ensures forall c :: 0 <= c < N_CHANNELS ==>
              Resample(ChannelFrame(file, data)).columns[c].name == CHANNEL_NAMES[c] &&
              Resample(ChannelFrame(file, data)).columns[c].buckets == GroupByBucket(ChannelSamples(file, c))
  {
    forall c | 0 <= c < N_CHANNELS
      ensures Resample(ChannelFrame(file, data)).columns[c].buckets == GroupByBucket(ChannelSamples(file, c))
    {
      ColumnIsChannel(file, data, c);
    }
  }

  /** `read_channels`: file header, channel headers, length check, reshape, columns,
      timestamp index and one-second buckets, failing as the source does. */
  method ReadChannels(file: File) returns (r: Result<Resampled<seq<Byte>>>)
    ensures r.Ok? <==> Decodable(file)
    ensures r.Err? ==> r.error == (if |file| < DATA_OFFSET then StructError else DataCheckFailed)
    ensures r.Ok? ==> r.value.start == FileStart(file)
    ensures r.Ok? ==> r.value.labels == BucketLabels(SamplesPerChannel(file))
    ensures r.Ok? ==> |r.value.columns| == N_CHANNELS
    ensures r.Ok? ==> forall c :: 0 <= c < N_CHANNELS ==>
              r.value.columns[c].name == CHANNEL_NAMES[c] &&
              r.value.columns[c].buckets == GroupByBucket(ChannelSamples(file, c))
  {
    var fileHeader := ReadFileHeader(file, 0);
    if fileHeader.Err? {
      return Err(fileHeader.error);
    }
    var listFileHeader := DecodeByteList(fileHeader.value, true);
    var channelHeaders := ReadChannelHeaders(file, N_CHANNELS);
    ChannelRegions(0, 0);
    if channelHeaders.Err? {
      return Err(channelHeaders.error);
    }

    var offset := FILE_HEADER_BYTES + N_CHANNELS * CHANNEL_HEADER_BYTES;
    HeaderSamplesPerChannel(file, fileHeader.value);
    var samplePerChannel := listFileHeader[SAMPLES_PER_CHANNEL_FIELD].value;

    var data := ReadSamples(file, offset, N_CHANNELS * samplePerChannel);
    DataOutcome(file, data);
    if !DataCheck(|data|, samplePerChannel) {
      return Err(DataCheckFailed);
    }
    var rows: nat := samplePerChannel;
    var data2d := Reshape(data, rows);

    var fileTags := ReadTimeTags(file);
    var tags := fileTags.value;
    TimeTagsStart(file, tags);

    var dataChannels := NamedColumns(data2d);
    var (start, index) := CreateTimestampIndex(tags, |data2d|);
    var frame := Frame(start, index, dataChannels);
    assert frame == ChannelFrame(file, data);
    r := Ok(Resample(frame));
    ResampledChannels(file, data);
  }
}
