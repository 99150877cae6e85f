# Speech-to-speech demo: batch driver and corpus extractor in Dafny

The repository is a small Chinese-to-English/French/German speech
translation demo: Whisper recognises Chinese speech, M2M100 translates the
text, a Coqui TTS voice speaks the translation, and a word error rate is
computed against reference transcripts when any exist. This project models
the deterministic logic around those models:

- `src/run_demo.py`, the batch driver: the two language tables and the
  `--target-lang` choice, loading the `idx|text` reference file into a
  dictionary, selecting the first `min(num_ex, n)` sorted `.wav` files,
  deriving each sample identifier and output path, accumulating the
  reference/hypothesis pairs, and the condition under which WER is
  computed (module `RunDemo`, with the reference loader in `References`).
- `src/utils/extract_commonvoice_demo.py`, the corpus extractor: it names
  the records `0000.wav`, `0001.wav`, …, writes one `idx|sentence` line per
  record, and stops once the accumulated duration reaches 1800 seconds
  (module `Extractor`).
- The hand-off between the two (module `RoundTrip`): the extractor writes
  its transcript file at the driver's default `--ref-trans` path, and every
  line it writes loads back as the entry `<idx> -> <normalised sentence>`,
  whose key is exactly the identifier of the wav file `<idx>.wav`.

The Python built-ins these scripts lean on are modelled in `PyStr`
(`str.strip`, `str.lower`, `str.split("|", 1)`, `str.endswith`,
`str.replace(".wav", "")`, `f"{i:04d}"`, `posixpath.join`) and `Sorting`
(`sorted` on strings: code-point lexicographic order). `Wrappers` holds the
`Option` and `Result` types.

The speech models are parameters: a run receives a `Services` value with a
`recognise` function (audio path to text) and a `translate` function (text
and target language to text). A run's outputs are a map from output path to
the text synthesised there, so overwriting a file is overwriting a map
entry. Directory listing and file existence are `Option` arguments (`None`
when the directory or file is absent). Durations are exact reals.

## Model

| member | source | states |
|---|---|---|
| RunDemo.LanguageTablesAgree | src/run_demo.py:13-23 | Both tables have exactly the keys en, fr, de, and the target-language table maps each code to itself. |
| RunDemo.DefaultRunSettings | src/run_demo.py:29-34 | With every option at its default the run speaks English with `tts_models/en/ljspeech/tacotron2-DDC` and processes `min(5, n)` files. |
| RunDemo.ResolveLanguage | src/run_demo.py:32 | A target language is accepted iff it is en, fr or de; otherwise the error names it; an accepted code keeps its own code for translation and gets a TTS model trained for that language. |
| References.LoadReferences | src/run_demo.py:72-77 | The loop over the reference file builds exactly the index defined line by line; a missing file gives the empty dictionary. |
| References.RefIndexFails | src/run_demo.py:76 | Loading succeeds iff every stripped line holds a `\|`; on failure the error names the first line without one (blank lines included). |
| References.RefIndexLookup | src/run_demo.py:76-77 | A key is in the dictionary iff some line carries it, and its value is the text after the first `\|` of the last such line: later lines overwrite earlier ones. |
| References.RefIndexErrorPersists | src/run_demo.py:76 | Once a line fails, no later line changes the outcome: the run aborts. |
| References.ParseLineSucceeds | src/run_demo.py:76 | A line unpacks into two names iff its stripped text contains `\|`. |
| References.LastCarrier | src/run_demo.py:77 | The last line carrying a key: it carries it, no later line does, and no line does when there is none. |
| PyStr.SplitOnceParts | src/run_demo.py:76 | `split("\|", 1)` yields two parts iff the separator occurs; the head has no separator and head, separator, tail rebuild the text. |
| PyStr.SplitOnceUnique | src/run_demo.py:76 | Splitting `k\|v` with a separator-free `k` gives exactly `k` and `v`, whatever `v` contains. |
| PyStr.StripTrimmed | src/run_demo.py:76 | A stripped text starts and ends with a non-whitespace character. |
| PyStr.StripUnique | src/run_demo.py:76 | Stripping whitespace-surrounded trimmed text gives that text back. |
| PyStr.LStripShape | src/run_demo.py:76 | `lstrip` keeps a suffix of the text that does not start with whitespace. |
| PyStr.RStripShape | src/run_demo.py:76 | `rstrip` keeps a prefix of the text that does not end with whitespace. |
| PyStr.IndexOfFirst | src/run_demo.py:76 | The separator search finds the first occurrence, and none exactly when the separator is absent. |
| Sorting.Sort | src/run_demo.py:84 | `sorted` returns an ordered permutation of its input. |
| Sorting.SortedUnique | src/run_demo.py:84 | Two ordered arrangements of the same names are equal, so the sorted list is determined by the listing. |
| Sorting.LessEqTotal | src/run_demo.py:84 | String comparison orders any two names. |
| Sorting.LessEqAntisymmetric | src/run_demo.py:84 | Names that compare both ways are equal. |
| Sorting.LessEqTransitive | src/run_demo.py:84 | String comparison is transitive. |
| RunDemo.WavNames | src/run_demo.py:84 | A name is kept iff it is in the listing and ends with `.wav`. |
| RunDemo.WavNamesCount | src/run_demo.py:84 | Each `.wav` name is kept as many times as the listing holds it, and no other name is kept. |
| RunDemo.SlicePrefix | src/run_demo.py:87 | `s[:k]` is a prefix of `s` of length `min(k, n)` for `k >= 0`, and `max(n + k, 0)` for negative `k`. |
| RunDemo.SelectFilesSpec | src/run_demo.py:84-87 | The selected files number `min(num_ex, n)` (or `n + num_ex` items, at least none, for a negative count), are `.wav` names from the listing, and are the first ones of the sorted order. |
| RunDemo.EmptyDirectory | src/run_demo.py:84-87 | An empty directory processes no file and never reaches scoring. |
| RunDemo.TwoOfThree | src/run_demo.py:84-109 | With `0000.wav` to `0002.wav` and `--num-ex 2`, the files `0000.wav` and `0001.wav` are processed and written to `outputs/en/0000_en.wav` and `outputs/en/0001_en.wav`. |
| RunDemo.SampleIdOfPlainName | src/run_demo.py:88 | A name `<t>.wav` in which `t` holds no `.wav` (other dots allowed, as in `clip.v2.wav`) has identifier `t`. |
| RunDemo.SampleIdCollides | src/run_demo.py:88 | `a.wav` and `a.wav.wav` both have identifier `a`, since every `.wav` is removed. |
| PyStr.RemoveAllSuffix | src/run_demo.py:88 | Removing every occurrence of a pattern that cannot overlap itself from `t + pattern`, where `t` does not contain it, leaves `t`. |
| PyStr.RemoveAllNoOccurrence | src/run_demo.py:88 | A text that does not contain the pattern is returned unchanged by `replace(pattern, "")`. |
| PyStr.RemoveAllSplit | src/run_demo.py:88 | The first occurrence of a pattern that cannot overlap itself is removed, the text before it is kept, and the pass goes on after it. |
| RunDemo.SampleIdSplit | src/run_demo.py:88 | `x.wav<rest>` with `x` free of `.wav` has identifier `x` followed by the identifier of `<rest>`, so every `.wav` is removed, not only the last. |
| RunDemo.SampleIdNoExtension | src/run_demo.py:88 | A name that holds no `.wav` is its own identifier. |
| PyStr.JoinKeepsName | src/run_demo.py:89 | A joined path ends with the name joined on, and an absolute name replaces the directory. |
| RunDemo.OutputPathName | src/run_demo.py:108 | Whatever the output directory, the synthesised file is named `<idx>_<lang>.wav`. |
| RunDemo.OutputPathShape | src/run_demo.py:108 | The synthesis of identifier `id` goes to `<out>/<lang>/<id>_<lang>.wav`. |
| RunDemo.DefaultOutPath | src/run_demo.py:88-108 | Under the default output directory, `<t>.wav` with `t` free of `.wav` (dotted names such as `clip.v2.wav` included) is synthesised to `outputs/<lang>/<t>_<lang>.wav`. |
| RunDemo.OutputPathInjective | src/run_demo.py:108 | Distinct identifiers (not starting with `/`) never share an output path. |
| RunDemo.OutputsLastWriter | src/run_demo.py:108-109 | An output file holds the translation of the last processed file writing to that path. |
| RunDemo.OutputsKeys | src/run_demo.py:108-109 | There is one output file per distinct output path of the processed files and no other. |
| RunDemo.Matched | src/run_demo.py:112 | A processed file contributes a pair iff its identifier is a reference key. |
| RunDemo.MatchedCount | src/run_demo.py:112 | Each processed file with a reference contributes as many pairs as times it was processed, and no other file contributes. |
| RunDemo.MatchedPrefix | src/run_demo.py:87-114 | Matching keeps processing order: the files matched among the first `i` processed are a prefix of all matched files. |
| RunDemo.PairsAligned | src/run_demo.py:112-114 | The reference and hypothesis lists have equal length, one entry per matched file in processing order: the reference text and the stripped recognition of that file. |
| RunDemo.WerGate | src/run_demo.py:119 | WER is computed iff some processed file's identifier is a reference key. |
| RunDemo.RunBatch | src/run_demo.py:56-123 | An invalid language, then an unloadable reference file, then a missing input directory abort the run in that order; otherwise the report holds the selected files, the outputs, the aligned pairs and whether WER is computed, as defined above. |
| PyStr.Pad4Value | src/utils/extract_commonvoice_demo.py:30 | `{i:04d}` reads back as `i`; it is exactly four digits for `i < 10000` and never wider than needed (a longer one does not start with `0`). |
| PyStr.Pad4Injective | src/utils/extract_commonvoice_demo.py:30 | Different record indices get different names. |
| PyStr.Pad4 | src/utils/extract_commonvoice_demo.py:30 | The padded index consists of decimal digits only. |
| PyStr.LowerKeeps | src/utils/extract_commonvoice_demo.py:33 | Lower-casing keeps trimmed text trimmed, whitespace-only text whitespace-only, does not add or remove `\|` or line breaks, and is idempotent. |
| Extractor.StopCount | src/utils/extract_commonvoice_demo.py:35-38 | The number of records written is the shortest non-empty prefix whose total duration reaches the target, or the whole stream; at least one for a non-empty stream. |
| Extractor.DemoBound | src/utils/extract_commonvoice_demo.py:6 | With the 1800-second target, clips of at least one second each stop the extraction after at most 1800 records. |
| Extractor.StopCountUnique | src/utils/extract_commonvoice_demo.py:35-38 | Those properties determine the count. |
| Extractor.Extract | src/utils/extract_commonvoice_demo.py:23-40 | The loop writes `wav/0000.wav` … and one `idx\|sentence` line per record up to the stop count, its total is the sum of the written durations, and the final report fails for an empty stream. |
| RoundTrip.TranscriptLineParses | src/utils/extract_commonvoice_demo.py:34 | A transcript line loads as key `<idx>` with the normalised sentence as value. |
| RoundTrip.ReadLinesConcat | src/run_demo.py:75 | Reading back lines written one after another, each ending in its only newline, gives those lines. |
| RoundTrip.TranslatePlain | src/run_demo.py:74 | Text without carriage returns reads unchanged under universal newlines. |
| RoundTrip.TranscriptIndex | src/utils/extract_commonvoice_demo.py:34 | The transcript lines load into a dictionary whose keys are exactly `0000`, `0001`, … and whose values are the normalised sentences; no entry overwrites another. |
| RoundTrip.TranscriptFileLoads | src/utils/extract_commonvoice_demo.py:24-34 | Read as a file, the extractor's transcript loads without error into that dictionary when no sentence keeps a line break. |
| RoundTrip.WavNameIdentifier | src/run_demo.py:88 | The extractor's name `<idx>.wav` has identifier `<idx>`. |
| RoundTrip.DefaultReferencePath | src/run_demo.py:34 | The extractor's transcript path is the driver's default `--ref-trans`. |
| RoundTrip.ExtractThenScore | src/utils/extract_commonvoice_demo.py:23-38 | After an extraction, the wav name of every written record has a reference, and that reference is the record's normalised sentence, provided no written sentence keeps a line break. |

## Left out

- Loading and running Whisper, M2M100 and the TTS voice: recognition and translation are the `recognise` and `translate` parameters, and synthesis is recorded as the text written to each output path, not as audio.
- The WER value itself (`jiwer.wer`): the model states only when it is computed.
- Printing, logging and the progress bar: they have no effect on the modelled results.
- RunDemo.RunBatch: loading the three models (lines 46, 53-54 and 63, for instance `whisper.load_model` with an unknown `--model`), `os.makedirs` (line 70) and the three model calls (`transcribe`, `generate`, `tts_to_file`, lines 92-109) are assumed to succeed. In the script a failure in any of them raises and aborts the batch: model loading after the language check and before `makedirs`, `makedirs` before the references are loaded, a model call midway, after the earlier files' outputs have already been written, and with no WER computed.
- Command-line parsing other than the `--target-lang` choice: `Args` receives the parsed values, with `--num-ex` already an integer.
- The streamed Common Voice download in the extractor: the stream is a sequence of records reduced to duration and sentence, and the audio written is identified only by its path.
- Extractor.Record: `len(array) / sampling_rate` and the running sum `total += duration` (line 35) are exact reals, so floating-point rounding, which can change the record at which the 1800-second target is reached, and a zero sampling rate are not modelled.
- PyStr.Lower: folds the ASCII letters only; Python's full Unicode case mapping is not modelled.
- RoundTrip.TranscriptFileLoads: requires that no normalised sentence contains `\n` or `\r`, since such a sentence would split its transcript line in two when read back.
- PyStr.Join: models POSIX path joining only.
- Undecodable bytes are not modelled: a reference line that is not valid UTF-8, and a file name that `os.listdir` returns with surrogate escapes, have no counterpart, since names and lines are sequences of Dafny characters.
- The `app.py` front end and the remaining repository scripts are not part of this model.
- Two points where the code is more specific than a casual reading suggests, and the model follows the code: the extractor opens `transcripts.txt` with "w", so a re-run replaces the file rather than appending duplicate entries to it; and the identifier removes every `.wav` in a name, not just the extension.
