/** The time base of a recording: the start instant from the header's calendar
    fields, a sample every 20 ms after it, and right-closed one-second buckets.
    Times are millisecond offsets from the start instant. */
module Timing {
  import opened Bytes
  import opened Struct

  // Times below are written with their literal values: samples are 20 ms apart (`freq='20ms'`;
  // secPerTick is not consulted), a `resample('S')` bucket is 1000 ms wide, so 50 sample
  // slots fit in one bucket.

  /** The arguments of `datetime(*date_info)`. The seconds field is kept as the
      8-byte double it is stored as; `int()` truncates it, so the start instant
      always falls on a whole second. */
  datatype StartTime = StartTime(year: int, month: int, day: int, hour: int, minute: int, seconds: seq<Byte>)

  /** The element kinds of the list `read_time_tags` returns: secPerTick, year, month,
      day, hour, minute, seconds, samplesPerChannel. */
  predicate TimeTagKinds(tags: seq<Field>)
  {
    |tags| == 8 && tags[0].Double? &&
    tags[1].Int? && tags[2].Int? && tags[3].Int? && tags[4].Int? && tags[5].Int? &&
    tags[6].Double? && tags[7].Int?
  }

  /** `timestamp[1:7]`: year, month, day, hour, minute and seconds. */
  function DateInfo(tags: seq<Field>): (start: StartTime)
    requires TimeTagKinds(tags)
    ensures tags[1..7] == [Int(start.year), Int(start.month), Int(start.day),
                           Int(start.hour), Int(start.minute), Double(start.seconds)]
  {
    StartTime(tags[1].value, tags[2].value, tags[3].value, tags[4].value, tags[5].value, tags[6].bits)
  }

  /** `pd.date_range(start, periods=n, freq='20ms')`, as offsets from `start`. */
  function TimestampIndex(n: nat): (index: seq<nat>)
    ensures |index| == n
    ensures n > 0 ==> index[0] == 0
    ensures forall i :: 0 <= i < n - 1 ==> index[i + 1] == index[i] + 20
  {
    seq(n, i requires 0 <= i < n => 20 * i)
  }

  /** The index never repeats and never goes back: entry `i` is before entry `j` whenever `i < j`. */
  lemma TimestampIndexIncreasing(n: nat, i: nat, j: nat)
    requires i < j < n
    ensures TimestampIndex(n)[i] < TimestampIndex(n)[j]
  {
  }

  /** `create_timestamp_index(timestamp, data)` for a table of `rows` rows. */
  function CreateTimestampIndex(tags: seq<Field>, rows: nat): (r: (StartTime, seq<nat>))
    requires TimeTagKinds(tags)
    ensures r.0 == DateInfo(tags)
    ensures |r.1| == rows
    ensures r.1 == TimestampIndex(rows)
    ensures rows > 0 ==> r.1[0] == 0
    ensures forall i :: 0 <= i < rows - 1 ==> r.1[i + 1] == r.1[i] + 20
  {
    (DateInfo(tags), TimestampIndex(rows))
  }

  /** The bucket `(s - 1 s, s s]` that holds offset `t` ms, named by its right edge `s`. */
  function BucketOf(t: nat): (s: nat)
    ensures (s - 1) * 1000 < t <= s * 1000
  {
    (t + 999) / 1000
  }

  /** Only one right-closed bucket holds a given offset. */
  lemma BucketOfUnique(t: nat, s: int)
    requires (s - 1) * 1000 < t <= s * 1000
    ensures s == BucketOf(t)
  {
  }

  /** Sample `i` falls in the bucket whose 50 sample slots `(50 (s - 1), 50 s]` hold `i`. */
  lemma SampleBucketBounds(i: nat)
    ensures var s := BucketOf(20 * i);
      50 * (s - 1) < i <= 50 * s
  {
  }

  /** Sample `i` falls in bucket `ceil(i / 50)`. */
  lemma SampleBucket(i: nat)
    ensures BucketOf(20 * i) == (i + 49) / 50
  {
    var q := (i + 49) / 50;
    assert (q - 1) * 50 < i <= q * 50;
    BucketOfUnique(20 * i, q);
  }

  /** How many buckets `resample` yields for `n` consecutive samples from the start. */
  function NumBuckets(n: nat): (count: nat)
    ensures count == if n == 0 then 0 else (n + 48) / 50 + 1
  {
    if n == 0 then 0 else SampleBucket(n - 1); BucketOf(20 * (n - 1)) + 1
  }

  /** The row where bucket `k` begins in a column of `n` rows (and where bucket `k - 1` ends). */
  function BucketEdge(k: nat, n: nat): (e: nat)
    ensures e <= n
  {
    if k == 0 then 0 else Min(50 * (k - 1) + 1, n)
  }

  /** Rows `[BucketEdge(k), BucketEdge(k + 1))` are exactly the samples falling in bucket `k`:
      each bucket holds a run of consecutive rows and nothing else. */
  lemma BucketMembers(n: nat, k: nat, i: nat)
    requires k < NumBuckets(n) && i < n
    ensures BucketEdge(k, n) <= i < BucketEdge(k + 1, n) <==> BucketOf(20 * i) == k
  {
    SampleBucketBounds(i);
    SampleBucketBounds(n - 1);
  }

  /** Sample 0 is alone in its bucket; every later bucket holds 50 samples, except that the last may hold fewer,
      and none is empty. The last bucket ends at the last row. */
  lemma BucketSizes(n: nat, k: nat)
    requires k < NumBuckets(n)
    ensures BucketEdge(k, n) < BucketEdge(k + 1, n)
    ensures k == 0 ==> BucketEdge(k + 1, n) - BucketEdge(k, n) == 1
    ensures 0 < k < NumBuckets(n) - 1 ==> BucketEdge(k + 1, n) - BucketEdge(k, n) == 50
    ensures k == NumBuckets(n) - 1 ==> BucketEdge(k + 1, n) - BucketEdge(k, n) <= 50
    ensures BucketEdge(NumBuckets(n), n) == n
  {
    SampleBucketBounds(n - 1);
  }

  /** The rows of a column grouped by bucket, in time order: what `resample(...)` aggregates. */
  function GroupByBucket<T>(column: seq<T>): (groups: seq<seq<T>>)
    ensures |groups| == NumBuckets(|column|)
  {
    seq(NumBuckets(|column|), k requires 0 <= k < NumBuckets(|column|) => Bucket(column, k))
  }

  /** The rows of bucket `k`. */
  function Bucket<T>(column: seq<T>, k: nat): (rows: seq<T>)
    requires k < NumBuckets(|column|)
    ensures 0 < |rows| <= 50
  {
    BucketSizes(|column|, k);
    column[BucketEdge(k, |column|)..BucketEdge(k + 1, |column|)]
  }

  /** The groups joined end to end, in order. */
  function Concat<T>(groups: seq<seq<T>>): (joined: seq<T>)
  {
    if groups == [] then [] else Concat(groups[..|groups| - 1]) + groups[|groups| - 1]
  }

  /** Every row lands in exactly one bucket, and the buckets in order give back the column. */
  lemma GroupByBucketPartitions<T>(column: seq<T>)
    ensures Concat(GroupByBucket(column)) == column
  {
    var n := |column|;
    var g := GroupByBucket(column);
    ConcatPrefix(column, |g|);
    if n > 0 {
      BucketSizes(n, |g| - 1);
    }
    assert g[..|g|] == g;
  }

  lemma {:induction false} ConcatPrefix<T>(column: seq<T>, k: nat)
    requires k <= NumBuckets(|column|)
    ensures Concat(GroupByBucket(column)[..k]) == column[..BucketEdge(k, |column|)]
  {
    var n := |column|;
    var g := GroupByBucket(column);
    if k > 0 {
      ConcatPrefix(column, k - 1);
      BucketSizes(n, k - 1);
      var e0, e1 := BucketEdge(k - 1, n), BucketEdge(k, n);
      var front := g[..k];
      assert front[..k - 1] == g[..k - 1];
      assert front[k - 1] == column[e0..e1];
      assert Concat(front) == Concat(front[..k - 1]) + front[k - 1];
      assert column[..e1] == column[..e0] + column[e0..e1];
    }
  }

  /** `resample` labels the bucket `(s - 1 s, s s]` by its left edge, `s - 1` s, in milliseconds. */
  function BucketLabels(n: nat): (labels: seq<int>)
    ensures |labels| == NumBuckets(n)
  {
    seq(NumBuckets(n), k requires 0 <= k < NumBuckets(n) => 1000 * (k - 1))
  }

  /** Every sample of bucket `k` lies in the second after its label, the label excluded. */
  lemma BucketLabelMembers(n: nat, k: nat, i: nat)
    requires k < NumBuckets(n) && BucketEdge(k, n) <= i < BucketEdge(k + 1, n)
    ensures BucketLabels(n)[k] < TimestampIndex(n)[i] <= BucketLabels(n)[k] + 1000
  {
    BucketMembers(n, k, i);
  }

  /** One hundred samples span three buckets: sample 0, samples 1 to 50, and samples 51 to 99. */
  lemma HundredSamples()
    ensures NumBuckets(100) == 3
    ensures BucketEdge(1, 100) == 1 && BucketEdge(2, 100) == 51 && BucketEdge(3, 100) == 100
  {
    SampleBucket(99);
  }
}
