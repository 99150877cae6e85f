/** The extractor's `transcripts.txt` read back by the batch script: the
    file the extractor writes is the default `--ref-trans` of
    src/run_demo.py, and every line it writes loads as the entry
    `<i:04d> -> <normalised sentence>`, which is also the identifier of the
    wav file `<i:04d>.wav`. */
module RoundTrip {
  import opened Wrappers
  import opened PyStr
  import opened References
  import opened Extractor
  import RunDemo

  /** The text of a file whose lines were written one after another. */
  function Concat(lines: seq<string>): string {
    if lines == [] then [] else lines[0] + Concat(lines[1..])
  }

  /** Python's universal-newline reading: `\r\n` and a lone `\r` both arrive
      as `\n`. */
  function Translate(raw: string): string
    decreases |raw|
  {
    if raw == [] then []
    else if raw[0] == '\r' && |raw| >= 2 && raw[1] == '\n' then "\n" + Translate(raw[2..])
    else if raw[0] == '\r' then "\n" + Translate(raw[1..])
    else [raw[0]] + Translate(raw[1..])
  }

  /** `for line in f`: every line runs up to and including its `\n`; a last
      line without one comes as it is. */
  function ReadLines(text: string): seq<string>
    decreases |text|
  {
    if text == [] then []
    else match IndexOf(text, '\n')
      case None => [text]
      case Some(k) =>
        IndexOfFirst(text, '\n');
        [text[..k + 1]] + ReadLines(text[k + 1..])
  }

  /** The lines of the file at `raw`, as the batch script iterates them. */
  function FileLines(raw: string): seq<string> {
    ReadLines(Translate(raw))
  }

  /** A line as written by `fout.write(...)`: one `\n`, at its end. */
  predicate OneLine(line: string) {
    |line| >= 1 && line[|line| - 1] == '\n' && '\n' !in line[..|line| - 1]
  }

  lemma {:induction false} TranslatePlain(s: string)
    requires '\r' !in s
    ensures Translate(s) == s
    decreases |s|
  {
    if s != [] {
      assert s[0] != '\r';
      assert '\r' !in s[1..] by { assert forall c :: c in s[1..] ==> c in s; }
      TranslatePlain(s[1..]);
      assert s == [s[0]] + s[1..];
    }
  }

  /** Reading back lines that were written one by one gives those lines. */
  lemma {:induction false} ReadLinesConcat(lines: seq<string>)
    requires forall i :: 0 <= i < |lines| ==> OneLine(lines[i])
    ensures ReadLines(Concat(lines)) == lines
    decreases |lines|
  {
    if lines != [] {
      var first, rest := lines[0], Concat(lines[1..]);
      var text := first + rest;
      var k := |first| - 1;
      assert text[..k] == first[..k];
      IndexOfAt(text, '\n', k);
      assert text[..k + 1] == first;
      assert text[k + 1..] == rest;
      ReadLinesConcat(lines[1..]);
    }
  }

  /** One transcript line loads as the entry it was written from. */
  lemma TranscriptLineParses(i: nat, sentence: string)
    ensures ParseLine(TranscriptLine(i, sentence)) == Some((Pad4(i), Normalise(sentence)))
  {
    var key, value := Pad4(i), Normalise(sentence);
    StripTrimmed(sentence);
    LowerKeeps(Strip(sentence));
    var t := key + "|" + value;
    assert t[0] == key[0];
    assert !IsSpace(t[0]) by { assert IsDigit(key[0]); }
    assert !IsSpace(t[|t| - 1]) by {
      if value == [] { assert t[|t| - 1] == '|'; } else { assert t[|t| - 1] == value[|value| - 1]; }
    }
    assert TranscriptLine(i, sentence) == [] + t + "\n";
    StripUnique([], t, "\n");
    assert '|' !in key by { assert forall j :: 0 <= j < |key| ==> IsDigit(key[j]); }
    SplitOnceUnique(key, '|', value);
  }

  /** A sentence that keeps no line break after normalising. */
  predicate SingleLine(sentence: string) {
    '\n' !in Normalise(sentence) && '\r' !in Normalise(sentence)
  }

  /** The padded indices of the first `n` records. */
  function PaddedKeys(n: nat): set<string> {
    if n == 0 then {} else PaddedKeys(n - 1) + {Pad4(n - 1)}
  }

  lemma {:induction false} PaddedKeysMember(n: nat, i: nat)
    ensures Pad4(i) in PaddedKeys(n) <==> i < n
    decreases n
  {
    if n > 0 {
      PaddedKeysMember(n - 1, i);
      if Pad4(i) == Pad4(n - 1) { Pad4Injective(i, n - 1); }
    }
  }

  /** Loading one more transcript line adds one entry. */
  lemma TranscriptIndexStep(recs: seq<Record>)
    requires recs != []
    ensures var n := |recs| - 1;
      RefIndex(TranscriptLines(recs)) ==
        match RefIndex(TranscriptLines(recs[..n]))
        case Err(e) => Err(e)
        case Ok(m) => Ok(m[Pad4(n) := Normalise(recs[n].sentence)])
  {
    var n := |recs| - 1;
    var lines := TranscriptLines(recs);
    assert lines[..n] == TranscriptLines(recs[..n]);
    assert lines[n] == TranscriptLine(n, recs[n].sentence);
    TranscriptLineParses(n, recs[n].sentence);
  }

  /** The index loaded from the transcript lines of `recs` maps exactly the
      padded indices `0000`, `0001`, ... to the normalised sentences; no entry
      overwrites another since the padded indices differ. */
  lemma {:induction false} TranscriptIndex(recs: seq<Record>)
    ensures RefIndex(TranscriptLines(recs)).Ok?
    ensures RefIndex(TranscriptLines(recs)).value.Keys == PaddedKeys(|recs|)
    ensures forall i :: 0 <= i < |recs| ==>
      Pad4(i) in RefIndex(TranscriptLines(recs)).value &&
      RefIndex(TranscriptLines(recs)).value[Pad4(i)] == Normalise(recs[i].sentence)
    decreases |recs|
  {
    if recs != [] {
      var n := |recs| - 1;
      var init := recs[..n];
      TranscriptIndex(init);
      TranscriptIndexStep(recs);
      var m := RefIndex(TranscriptLines(recs)).value;
      var m0 := RefIndex(TranscriptLines(init)).value;
      assert m == m0[Pad4(n) := Normalise(recs[n].sentence)];
      assert m.Keys == m0.Keys + {Pad4(n)};
      forall i | 0 <= i < |recs|
        ensures Pad4(i) in m && m[Pad4(i)] == Normalise(recs[i].sentence)
      {
        if i < n {
          assert Pad4(i) in m0;
          if Pad4(i) == Pad4(n) { Pad4Injective(i, n); }
          assert init[i] == recs[i];
        }
      }
    }
  }

  /** The whole transcript file, written by the extractor and read by the
      batch script, loads without error into that index. */
  lemma TranscriptFileLoads(recs: seq<Record>)
    requires forall i :: 0 <= i < |recs| ==> SingleLine(recs[i].sentence)
    ensures RefIndexOfFile(Some(FileLines(Concat(TranscriptLines(recs))))) == RefIndex(TranscriptLines(recs))
  {
    var lines := TranscriptLines(recs);
    forall i | 0 <= i < |lines| ensures OneLine(lines[i]) && '\r' !in lines[i] {
      var body := Pad4(i) + "|" + Normalise(recs[i].sentence);
      Pad4Value(i);
      assert lines[i] == body + "\n";
      assert lines[i][..|lines[i]| - 1] == body;
      assert '\n' !in Pad4(i) && '\r' !in Pad4(i) by {
        assert forall j :: 0 <= j < |Pad4(i)| ==> IsDigit(Pad4(i)[j]);
      }
    }
    NoReturnInConcat(lines);
    TranslatePlain(Concat(lines));
    ReadLinesConcat(lines);
  }

  lemma {:induction false} NoReturnInConcat(lines: seq<string>)
    requires forall i :: 0 <= i < |lines| ==> '\r' !in lines[i]
    ensures '\r' !in Concat(lines)
    decreases |lines|
  {
    if lines != [] {
      NoReturnInConcat(lines[1..]);
    }
  }

  /** The extractor's wav name `<i:04d>.wav` has the identifier `<i:04d>`. */
  lemma WavNameIdentifier(i: nat)
    ensures RunDemo.SampleId(Pad4(i) + ".wav") == Pad4(i)
  {
    assert '.' !in Pad4(i) by {
      assert forall j :: 0 <= j < |Pad4(i)| ==> IsDigit(Pad4(i)[j]);
    }
    NoOccurrence(Pad4(i), ".wav");
    RunDemo.SampleIdOfPlainName(Pad4(i));
  }

  /** The extractor writes its transcripts where the batch script looks for
      them by default. */
  lemma DefaultReferencePath()
    ensures Join(DemoDir, "transcripts.txt") == RunDemo.DefaultArgs.refTrans
  {
  }

  /** End to end: after an extraction, a batch over wav files named like the
      extracted ones finds a reference for each of them, and the reference is
      that record's normalised sentence. */
  lemma ExtractThenScore(stream: seq<Record>, target: real, i: nat)
    requires forall j :: 0 <= j < StopCount(stream, target) ==> SingleLine(stream[j].sentence)
    requires i < StopCount(stream, target)
    ensures var written := stream[..StopCount(stream, target)];
      var refs := RefIndexOfFile(Some(FileLines(Concat(TranscriptLines(written)))));
      var id := RunDemo.SampleId(Pad4(i) + ".wav");
      refs.Ok? && id in refs.value && refs.value[id] == Normalise(stream[i].sentence)
  {
    var written := stream[..StopCount(stream, target)];
    TranscriptFileLoads(written);
    TranscriptIndex(written);
    PaddedKeysMember(|written|, i);
    WavNameIdentifier(i);
    assert written[i] == stream[i];
  }
}
