/** The corpus extractor src/utils/extract_commonvoice_demo.py: it walks the
    streamed Common Voice records in order, writes each one's audio to
    `wav/<i:04d>.wav` and the line `<i:04d>|<sentence>` to `transcripts.txt`,
    and stops after the first record at which the accumulated duration
    reaches the target.

    The stream is a sequence of records, each reduced to its duration in
    seconds (`len(array) / sampling_rate`, here an exact real) and its
    sentence. */
module Extractor {
  import opened Wrappers
  import opened PyStr

  /** `target_sec`: 30 minutes of audio. */
  const TargetSec: real := 1800.0

  const DemoDir: string := "data/raw/asr/commonvoice_demo"

  datatype Record = Record(duration: real, sentence: string)

  /** The `NameError` of the final report (line 40), which reads `i`: an
      empty stream never binds it. */
  datatype ExtractError = IndexUnbound

  /** Line 33: `item["sentence"].strip().lower()`. */
  function Normalise(sentence: string): string {
    Lower(Strip(sentence))
  }

  /** Line 30: `wav/<i:04d>.wav` under the demo directory. */
  function WavPath(i: nat): string {
    Join(Join(DemoDir, "wav"), Pad4(i) + ".wav")
  }

  /** Line 34: `f"{i:04d}|{sentence}\n"`. */
  function TranscriptLine(i: nat, sentence: string): string {
    Pad4(i) + "|" + Normalise(sentence) + "\n"
  }

  /** The transcript lines of the records `recs`, numbered from zero. */
  function TranscriptLines(recs: seq<Record>): (r: seq<string>)
    ensures |r| == |recs|
  {
    seq(|recs|, i requires 0 <= i < |recs| => TranscriptLine(i, recs[i].sentence))
  }

  function WavPaths(n: nat): (r: seq<string>)
    ensures |r| == n
  {
    seq(n, i requires 0 <= i < n => WavPath(i))
  }

  /** The accumulated duration of `recs`. */
  function Total(recs: seq<Record>): real {
    if recs == [] then 0.0 else Total(recs[..|recs| - 1]) + recs[|recs| - 1].duration
  }

  /** The first prefix length from `j` on whose total reaches `target`, or
      the whole stream. */
  function SearchFrom(recs: seq<Record>, target: real, j: nat): (k: nat)
    requires 1 <= j <= |recs|
    requires forall m :: 1 <= m < j ==> Total(recs[..m]) < target
    ensures j <= k <= |recs|
    ensures k == |recs| || Total(recs[..k]) >= target
    ensures forall m :: 1 <= m < k ==> Total(recs[..m]) < target
    decreases |recs| - j
  {
    if j == |recs| || Total(recs[..j]) >= target then j else SearchFrom(recs, target, j + 1)
  }

  /** How many records the loop writes: the shortest non-empty prefix whose
      total duration reaches `target`, or all of them if none does. At least
      one record is written from a non-empty stream, since the check follows
      the write. */
  function StopCount(recs: seq<Record>, target: real): (k: nat)
    ensures k <= |recs|
    ensures recs != [] ==> 1 <= k
    ensures k == |recs| || Total(recs[..k]) >= target
    ensures forall m :: 1 <= m < k ==> Total(recs[..m]) < target
  {
    if recs == [] then 0 else SearchFrom(recs, target, 1)
  }

  /** The four properties above single out one count. */
  lemma StopCountUnique(recs: seq<Record>, target: real, k: nat)
    requires k <= |recs|
    requires recs != [] ==> 1 <= k
    requires k == |recs| || Total(recs[..k]) >= target
    requires forall m :: 1 <= m < k ==> Total(recs[..m]) < target
    ensures k == StopCount(recs, target)
  {
    if recs != [] {
      SearchReaches(recs, target, 1, k);
    }
  }

  lemma {:induction false} SearchReaches(recs: seq<Record>, target: real, j: nat, k: nat)
    requires 1 <= j <= k <= |recs|
    requires k == |recs| || Total(recs[..k]) >= target
    requires forall m :: 1 <= m < k ==> Total(recs[..m]) < target
    ensures SearchFrom(recs, target, j) == k
    decreases k - j
  {
    if j < k {
      SearchReaches(recs, target, j + 1, k);
    }
  }

  /** Records of at least `d` seconds each add up to at least `d` per record. */
  lemma {:induction false} TotalAtLeast(recs: seq<Record>, d: real)
    requires forall j :: 0 <= j < |recs| ==> recs[j].duration >= d
    ensures Total(recs) >= |recs| as real * d
    decreases |recs|
  {
    if recs != [] {
      var init := recs[..|recs| - 1];
      assert forall j :: 0 <= j < |init| ==> init[j] == recs[j];
      TotalAtLeast(init, d);
    }
  }

  /** With the script's 30-minute target, clips of at least a second each
      stop the extraction after at most 1800 records. */
  lemma DemoBound(stream: seq<Record>)
    requires forall j :: 0 <= j < |stream| ==> stream[j].duration >= 1.0
    ensures StopCount(stream, TargetSec) <= 1800
  {
    if |stream| > 1800 {
      var head := stream[..1800];
      assert forall j :: 0 <= j < |head| ==> head[j] == stream[j];
      TotalAtLeast(head, 1.0);
      assert Total(head) >= TargetSec;
    }
  }

  /** What one more turn of the extraction loop adds. */
  lemma ExtractStep(stream: seq<Record>, i: nat)
    requires i < |stream|
    ensures WavPaths(i + 1) == WavPaths(i) + [WavPath(i)]
    ensures TranscriptLines(stream[..i + 1]) ==
      TranscriptLines(stream[..i]) + [TranscriptLine(i, stream[i].sentence)]
    ensures Total(stream[..i + 1]) == Total(stream[..i]) + stream[i].duration
  {
    var pre, next := stream[..i], stream[..i + 1];
    assert next[..i] == pre;
    assert forall k :: 0 <= k < i ==> next[k] == pre[k];
  }

  /** Lines 23-40: the extraction loop. `wavFiles[i]` receives the audio of
      record `i`, `lines` is what `transcripts.txt` holds afterwards (the file
      is opened with "w", so earlier contents are gone), `total` the duration
      accumulated, and `reported` the count the final message prints. */
  method Extract(stream: seq<Record>, target: real)
    returns (wavFiles: seq<string>, lines: seq<string>, total: real, reported: Result<nat, ExtractError>)
    ensures |lines| == StopCount(stream, target)
    ensures wavFiles == WavPaths(|lines|)
    ensures lines == TranscriptLines(stream[..|lines|])
    ensures total == Total(stream[..|lines|])
    ensures reported == if stream == [] then Err(IndexUnbound) else Ok(|lines|)
  {
    total := 0.0;
    wavFiles, lines := [], [];
    var last: Option<nat> := None;
    var i := 0;
    while i < |stream|
      invariant 0 <= i <= |stream|
      invariant wavFiles == WavPaths(i) && lines == TranscriptLines(stream[..i])
      invariant total == Total(stream[..i])
      invariant last == if i == 0 then None else Some(i - 1)
      invariant forall m :: 1 <= m <= i ==> Total(stream[..m]) < target
    {
      last := Some(i);
      var item := stream[i];
      wavFiles := wavFiles + [WavPath(i)];
      var sentence := Normalise(item.sentence);
      lines := lines + [Pad4(i) + "|" + sentence + "\n"];
      total := total + item.duration;
      ExtractStep(stream, i);
      i := i + 1;
      if total >= target {
        break;
      }
    }
    StopCountUnique(stream, target, i);
    reported := match last
      case None => Err(IndexUnbound)
      case Some(k) => Ok(k + 1);
  }
}
