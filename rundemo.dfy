/** The batch script src/run_demo.py: its language tables, the choice of input
    files, the identifier and output path of each file, the accumulation of
    (reference, hypothesis) pairs and the decision to score them.

    The three model calls are parameters: `recognise` maps a wav path to the
    text Whisper returns, `translate` maps a text and a target language code
    to the text M2M100 returns. Speech synthesis is recorded as the text
    handed to the TTS model for each output path. */
module RunDemo {
  import opened Wrappers
  import opened PyStr
  import opened Sorting
  import opened References

  /** `TGT_LANG_MAP`: the target code M2M100 is forced to, per CLI choice. */
  const TgtLangMap: map<string, string> := map["en" := "en", "fr" := "fr", "de" := "de"]

  /** `LANG_TO_TTS_MODEL`: the Coqui TTS model per CLI choice. */
  const LangToTtsModel: map<string, string> := map[
    "en" := "tts_models/en/ljspeech/tacotron2-DDC",
    "fr" := "tts_models/fr/css10/vits",
    "de" := "tts_models/de/thorsten/tacotron2-DCA"]

  const DefaultInDir: string := "data/processed/asr/commonvoice_demo/wav16k"
  const DefaultOutDir: string := "outputs"
  const DefaultModel: string := "tiny"
  const DefaultTargetLang: string := "en"
  const DefaultNumEx: int := 5
  const DefaultRefTrans: string := "data/raw/asr/commonvoice_demo/transcripts.txt"

  /** The parsed command line. `model` only selects the Whisper size. */
  datatype Args = Args(inDir: string, outDir: string, model: string,
                       targetLang: string, numEx: int, refTrans: string)

  /** The command line with every option left at its default (lines 29-34). */
  const DefaultArgs: Args := Args(DefaultInDir, DefaultOutDir, DefaultModel, DefaultTargetLang,
                                  DefaultNumEx, DefaultRefTrans)

  /** Ways the script stops before finishing. */
  datatype RunError =
    | InvalidChoice(lang: string)    // argparse refuses a `--target-lang` outside the choices
    | BadReference(cause: RefError)  // a reference line without `|`
    | MissingInputDir                // `os.listdir` on a directory that does not exist

  /** What the chosen language selects: the M2M100 target code and the TTS model. */
  datatype Voice = Voice(tgtLang: string, ttsModel: string)

  /** The opaque model calls. */
  datatype Services = Services(recognise: string -> string, translate: (string, string) -> string)

  /** What a finished run leaves behind. `outputs` maps each wav path written
      to the text synthesised into it. */
  datatype Report = Report(voice: Voice, processed: seq<string>, outputs: map<string, string>,
                           refTexts: seq<string>, hypTexts: seq<string>, werComputed: bool)

  /** The two tables cover the same three codes, and the translation table
      is the identity. */
  lemma LanguageTablesAgree()
    ensures TgtLangMap.Keys == LangToTtsModel.Keys == {"en", "fr", "de"}
    ensures forall k :: k in TgtLangMap ==> TgtLangMap[k] == k
  {
  }

  /** `--target-lang` is checked against the keys of `TGT_LANG_MAP`; a code
      that passes is found in both tables (lines 56 and 61), and the TTS model
      it selects is one trained for that language. */
  function ResolveLanguage(lang: string): (r: Result<Voice, RunError>)
    ensures r.Ok? <==> lang in {"en", "fr", "de"}
    ensures r.Err? ==> r.error == InvalidChoice(lang)
    ensures r.Ok? ==> r.value.tgtLang == lang && "tts_models/" + lang + "/" <= r.value.ttsModel
  {
    LanguageTablesAgree();
    if lang in TgtLangMap then Ok(Voice(TgtLangMap[lang], LangToTtsModel[lang]))
    else Err(InvalidChoice(lang))
  }

  function Min(a: int, b: int): int {
    if a <= b then a else b
  }

  /** The names of `listing` ending in `.wav`, in listing order. */
  function WavNames(listing: seq<string>): (r: seq<string>)
    ensures forall f :: f in r <==> f in listing && EndsWith(f, ".wav")
  {
    if listing == [] then []
    else (if EndsWith(listing[0], ".wav") then [listing[0]] else []) + WavNames(listing[1..])
  }

  /** The filter keeps every `.wav` name as often as the listing holds it,
      and nothing else. */
  lemma {:induction false} WavNamesCount(listing: seq<string>)
    ensures forall f :: multiset(WavNames(listing))[f] ==
                        (if EndsWith(f, ".wav") then multiset(listing)[f] else 0)
    decreases |listing|
  {
    if listing != [] {
      WavNamesCount(listing[1..]);
      assert listing == [listing[0]] + listing[1..];
    }
  }

  /** Python's slice `s[:k]`: a negative `k` drops `-k` items from the end. */
  function SlicePrefix(s: seq<string>, k: int): (r: seq<string>)
    ensures |r| <= |s| && r == s[..|r|]
    ensures k >= 0 ==> |r| == Min(k, |s|)
    ensures k < 0 ==> |r| == if |s| + k < 0 then 0 else |s| + k
  {
    if k >= 0 then s[..Min(k, |s|)]
    else if |s| + k < 0 then []
    else s[..|s| + k]
  }

  /** Lines 84-87: `sorted(f for f in listdir if f.endswith(".wav"))`,
      truncated to `wav_files[:min(num_ex, len(wav_files))]`. */
  function SelectFiles(listing: seq<string>, numEx: int): seq<string> {
    var wavs := Sort(WavNames(listing));
    SlicePrefix(wavs, Min(numEx, |wavs|))
  }

  /** A non-negative `--num-ex` processes exactly `min(num_ex, n)` files, a
      negative one `n + num_ex` (or none); they are wav names from the listing,
      in ascending order, and they are the first ones of ANY sorted arrangement
      of the wav names. */
  lemma SelectFilesSpec(listing: seq<string>, numEx: int, order: seq<string>)
    requires Sorted(order) && multiset(order) == multiset(WavNames(listing))
    ensures var r, n := SelectFiles(listing, numEx), |WavNames(listing)|;
      && (numEx >= 0 ==> |r| == Min(numEx, n))
      && (numEx < 0 ==> |r| == if n + numEx < 0 then 0 else n + numEx)
      && r == order[..|r|]
      && Sorted(r)
      && forall f :: f in r ==> f in listing && EndsWith(f, ".wav")
  {
    var wavs := Sort(WavNames(listing));
    SortedUnique(wavs, order);
    var r := SelectFiles(listing, numEx);
    forall f | f in r ensures f in listing && EndsWith(f, ".wav") {
      assert f in multiset(wavs);
    }
  }

  /** With no options the script speaks English with the LJSpeech voice and
      processes at most five files. */
  lemma DefaultRunSettings(listing: seq<string>)
    ensures ResolveLanguage(DefaultArgs.targetLang) == Ok(Voice("en", "tts_models/en/ljspeech/tacotron2-DDC"))
    ensures |SelectFiles(listing, DefaultArgs.numEx)| == Min(5, |WavNames(listing)|)
  {
    SelectFilesSpec(listing, DefaultArgs.numEx, Sort(WavNames(listing)));
  }

  /** Line 88: `fn.replace(".wav", "")`: every occurrence is removed, not
      only the extension. */
  function SampleId(fn: string): string {
    RemoveAll(fn, ".wav")
  }

  /** Lines 69 and 108: `out_dir/<lang>/<idx>_<lang>.wav`. */
  function OutputPath(outDir: string, lang: string, id: string): string {
    Join(Join(outDir, lang), id + NameSuffix(lang))
  }

  /** The part of the output name after the identifier: `_<lang>.wav`. */
  function NameSuffix(lang: string): string {
    "_" + lang + ".wav"
  }

  /** A name `<t>.wav` in which `t` holds no `.wav` (dots elsewhere, as in
      `clip.v2.wav`, are kept) has identifier `t`. */
  lemma SampleIdOfPlainName(t: string)
    requires !Occurs(t, ".wav")
    ensures SampleId(t + ".wav") == t
  {
    assert ".wav"[0] !in ".wav"[1..];
    RemoveAllSuffix(t, ".wav");
  }

  /** `replace` removes every `.wav`, not only the last: the text before the
      first occurrence is kept and the rest is processed the same way. */
  lemma SampleIdSplit(x: string, y: string)
    requires !Occurs(x, ".wav")
    ensures SampleId(x + ".wav" + y) == x + SampleId(y)
  {
    assert ".wav"[0] !in ".wav"[1..];
    RemoveAllSplit(x, y, ".wav");
  }

  /** A name without `.wav` is its own identifier. */
  lemma SampleIdNoExtension(t: string)
    requires !Occurs(t, ".wav")
    ensures SampleId(t) == t
  {
    RemoveAllNoOccurrence(t, ".wav");
  }

  /** Two different wav names can share an identifier, and then the second
      one's synthesis overwrites the first's. */
  lemma SampleIdCollides()
    ensures EndsWith("a.wav", ".wav") && EndsWith("a.wav.wav", ".wav")
    ensures SampleId("a.wav") == SampleId("a.wav.wav") == "a"
  {
    NoOccurrence("a", ".wav");
    SampleIdOfPlainName("a");
    var pat := ".wav";
    var s := "a.wav.wav";
    assert s[..|pat|] != pat by { assert s[..|pat|][0] == 'a' != pat[0]; }
    assert RemoveAll(s, pat) == [s[0]] + RemoveAll(s[1..], pat);
    assert s[1..] == pat + pat;
    assert (pat + pat)[..|pat|] == pat;
    assert (pat + pat)[|pat|..] == pat;
    assert RemoveAll(pat + pat, pat) == RemoveAll(pat, pat);
    assert pat[..|pat|] == pat && pat[|pat|..] == [];
    assert RemoveAll(pat, pat) == RemoveAll([], pat) == [];
  }

  /** For an ordinary output directory the file lands in `<out>/<lang>/`. */
  lemma OutputPathShape(outDir: string, lang: string, id: string)
    requires outDir != [] && outDir[|outDir| - 1] != '/'
    requires lang != [] && lang[0] != '/' && lang[|lang| - 1] != '/'
    requires id == [] || id[0] != '/'
    ensures OutputPath(outDir, lang, id) == outDir + "/" + lang + "/" + (id + NameSuffix(lang))
  {
    var name := id + NameSuffix(lang);
    assert name[0] != '/' by {
      if id == [] { assert name[0] == '_'; } else { assert name[0] == id[0]; }
    }
    var dir := outDir + "/" + lang;
    assert dir[|dir| - 1] == lang[|lang| - 1];
  }

  /** Whatever the output directory, the file is named `<idx>_<lang>.wav`. */
  lemma OutputPathName(outDir: string, lang: string, id: string)
    ensures EndsWith(OutputPath(outDir, lang, id), id + NameSuffix(lang))
  {
    JoinKeepsName(Join(outDir, lang), id + NameSuffix(lang));
  }

  /** Line 93: the hypothesis is the stripped recognised text. */
  function Hypothesis(inDir: string, svc: Services, fn: string): string {
    Strip(svc.recognise(Join(inDir, fn)))
  }

  /** Processed files whose identifier is a reference key, in processing
      order. */
  function Matched(files: seq<string>, refs: map<string, string>): (r: seq<string>)
    ensures forall f :: f in r <==> f in files && SampleId(f) in refs
    ensures |r| <= |files|
  {
    if files == [] then []
    else
      var last := files[|files| - 1];
      assert files == files[..|files| - 1] + [last];
      Matched(files[..|files| - 1], refs) + (if SampleId(last) in refs then [last] else [])
  }

  /** Matching keeps processing order: the files matched among the first
      `i` processed are a prefix of all matched files. */
  lemma {:induction false} MatchedPrefix(files: seq<string>, refs: map<string, string>, i: nat)
    requires i <= |files|
    ensures Matched(files[..i], refs) <= Matched(files, refs)
    decreases |files|
  {
    if i < |files| {
      assert files[..|files| - 1][..i] == files[..i];
      MatchedPrefix(files[..|files| - 1], refs, i);
    } else {
      assert files[..i] == files;
    }
  }

  /** Every processed file with a reference is matched as often as it was
      processed, and no other file is. */
  lemma {:induction false} MatchedCount(files: seq<string>, refs: map<string, string>)
    ensures forall f :: multiset(Matched(files, refs))[f] ==
                        (if SampleId(f) in refs then multiset(files)[f] else 0)
    decreases |files|
  {
    if files != [] {
      MatchedCount(files[..|files| - 1], refs);
      assert files == files[..|files| - 1] + [files[|files| - 1]];
    }
  }

  /** `ref_texts` after the loop has handled `files` (lines 112-113). */
  function RefTexts(files: seq<string>, refs: map<string, string>): seq<string> {
    if files == [] then []
    else
      var last := files[|files| - 1];
      var id := SampleId(last);
      RefTexts(files[..|files| - 1], refs) + (if id in refs then [refs[id]] else [])
  }

  /** `hyp_texts` after the loop has handled `files` (line 114). */
  function HypTexts(files: seq<string>, refs: map<string, string>, inDir: string, svc: Services): seq<string> {
    if files == [] then []
    else
      var last := files[|files| - 1];
      HypTexts(files[..|files| - 1], refs, inDir, svc) +
        (if SampleId(last) in refs then [Hypothesis(inDir, svc, last)] else [])
  }

  /** The two lists grow together: entry `k` of each comes from the `k`-th
      processed file whose identifier has a reference, the reference text
      from the dictionary and the hypothesis from the recogniser. */
  lemma {:induction false} PairsAligned(files: seq<string>, refs: map<string, string>, inDir: string, svc: Services)
    ensures |RefTexts(files, refs)| == |HypTexts(files, refs, inDir, svc)| == |Matched(files, refs)|
    ensures forall k :: 0 <= k < |Matched(files, refs)| ==>
      var f := Matched(files, refs)[k];
      SampleId(f) in refs &&
      RefTexts(files, refs)[k] == refs[SampleId(f)] &&
      HypTexts(files, refs, inDir, svc)[k] == Hypothesis(inDir, svc, f)
    decreases |files|
  {
    if files != [] {
      PairsAligned(files[..|files| - 1], refs, inDir, svc);
    }
  }

  /** The path each processed file's synthesis is written to, and the text
      synthesised (lines 96-109). */
  function OutPathOf(outDir: string, lang: string, fn: string): string {
    OutputPath(outDir, lang, SampleId(fn))
  }

  function Spoken(inDir: string, svc: Services, voice: Voice, fn: string): string {
    svc.translate(Hypothesis(inDir, svc, fn), voice.tgtLang)
  }

  /** The files left by writing `text(f)` to `path(f)` for each `f` in
      turn: a later write to a path replaces the earlier one. */
  function Writes(files: seq<string>, path: string -> string, text: string -> string): map<string, string> {
    if files == [] then map[]
    else
      var last := files[|files| - 1];
      Writes(files[..|files| - 1], path, text)[path(last) := text(last)]
  }

  lemma {:induction false} LastWriter(files: seq<string>, path: string -> string, text: string -> string, i: nat)
    requires i < |files|
    requires forall j :: i < j < |files| ==> path(files[j]) != path(files[i])
    ensures path(files[i]) in Writes(files, path, text)
    ensures Writes(files, path, text)[path(files[i])] == text(files[i])
    decreases |files|
  {
    var n := |files| - 1;
    if i < n {
      var init := files[..n];
      assert init[i] == files[i];
      forall j | i < j < |init| ensures path(init[j]) != path(init[i]) {
        assert init[j] == files[j];
      }
      LastWriter(init, path, text, i);
    }
  }

  lemma {:induction false} WritesKeys(files: seq<string>, path: string -> string, text: string -> string)
    ensures Writes(files, path, text).Keys == set f | f in files :: path(f)
    decreases |files|
  {
    if files != [] {
      WritesKeys(files[..|files| - 1], path, text);
      ImageStep(files, path);
    }
  }

  /** The output files after the loop has handled `files`. */
  function Outputs(files: seq<string>, inDir: string, outDir: string, lang: string,
                   svc: Services, voice: Voice): map<string, string>
  {
    Writes(files, f => OutPathOf(outDir, lang, f), f => Spoken(inDir, svc, voice, f))
  }

  /** The file at a path holds the synthesis of the last processed file
      that writes to that path. */
  lemma OutputsLastWriter(files: seq<string>, inDir: string, outDir: string, lang: string,
                          svc: Services, voice: Voice, i: nat)
    requires i < |files|
    requires forall j :: i < j < |files| ==> OutPathOf(outDir, lang, files[j]) != OutPathOf(outDir, lang, files[i])
    ensures var out := Outputs(files, inDir, outDir, lang, svc, voice);
      OutPathOf(outDir, lang, files[i]) in out &&
      out[OutPathOf(outDir, lang, files[i])] == Spoken(inDir, svc, voice, files[i])
  {
    LastWriter(files, f => OutPathOf(outDir, lang, f), f => Spoken(inDir, svc, voice, f), i);
  }

  /** The output paths of a list of files. */
  function PathsOf(files: seq<string>, outDir: string, lang: string): set<string> {
    set f | f in files :: OutPathOf(outDir, lang, f)
  }

  /** The image of a list under `g` grows by the image of its last item. */
  lemma ImageStep(files: seq<string>, g: string -> string)
    requires files != []
    ensures (set f | f in files :: g(f)) ==
      (set f | f in files[..|files| - 1] :: g(f)) + {g(files[|files| - 1])}
  {
    var init, last := files[..|files| - 1], files[|files| - 1];
    assert files == init + [last];
    var after, before := set f | f in files :: g(f), set f | f in init :: g(f);
    forall p | p in after ensures p in before || p == g(last) {
      var f :| f in files && g(f) == p;
      if f != last { assert f in init; }
    }
  }

  /** There is an output file for each processed file's path, and no other. */
  lemma OutputsKeys(files: seq<string>, inDir: string, outDir: string, lang: string,
                    svc: Services, voice: Voice)
    ensures Outputs(files, inDir, outDir, lang, svc, voice).Keys == PathsOf(files, outDir, lang)
  {
    WritesKeys(files, f => OutPathOf(outDir, lang, f), f => Spoken(inDir, svc, voice, f));
  }

  /** Identifiers that do not start with `/` (names listed in a directory
      never contain one) never share an output path. */
  lemma OutputPathInjective(outDir: string, lang: string, a: string, b: string)
    requires a == [] || a[0] != '/'
    requires b == [] || b[0] != '/'
    requires OutputPath(outDir, lang, a) == OutputPath(outDir, lang, b)
    ensures a == b
  {
    var dir := Join(outDir, lang);
    var suffix := NameSuffix(lang);
    var na, nb := a + suffix, b + suffix;
    assert na[0] != '/' by { if a == [] { assert na[0] == '_'; } else { assert na[0] == a[0]; } }
    assert nb[0] != '/' by { if b == [] { assert nb[0] == '_'; } else { assert nb[0] == b[0]; } }
    JoinRelative(dir, na);
    JoinRelative(dir, nb);
    CancelLeft(DirPrefix(dir), na, nb);
    CancelRight(a, b, suffix);
  }

  lemma CancelLeft(p: string, x: string, y: string)
    requires p + x == p + y
    ensures x == y
  {
    assert x == (p + x)[|p|..];
    assert y == (p + y)[|p|..];
  }

  lemma CancelRight(x: string, y: string, s: string)
    requires x + s == y + s
    ensures x == y
  {
    assert |x| == |y|;
    assert x == (x + s)[..|x|];
    assert y == (y + s)[..|y|];
  }

  /** The directory part `posixpath.join` puts in front of a relative name. */
  function DirPrefix(dir: string): string {
    if dir == [] || dir[|dir| - 1] == '/' then dir else dir + "/"
  }

  lemma JoinRelative(dir: string, x: string)
    requires x != [] && x[0] != '/'
    ensures Join(dir, x) == DirPrefix(dir) + x
  {
  }

  /** The batch can only be scored when a processed file has a reference:
      `if ref_texts and hyp_texts` (line 119) holds exactly then. */
  lemma WerGate(files: seq<string>, refs: map<string, string>, inDir: string, svc: Services)
    ensures (|RefTexts(files, refs)| > 0 && |HypTexts(files, refs, inDir, svc)| > 0) <==>
      Matched(files, refs) != []
    ensures Matched(files, refs) != [] <==> exists f :: f in files && SampleId(f) in refs
  {
    PairsAligned(files, refs, inDir, svc);
    var m := Matched(files, refs);
    if m != [] { assert m[0] in m; }
  }

  /** What one more turn of the main loop adds to each accumulator. */
  lemma LoopStep(files: seq<string>, i: nat, refs: map<string, string>, inDir: string, outDir: string,
                 lang: string, svc: Services, voice: Voice)
    requires i < |files|
    ensures var (pre, fn) := (files[..i], files[i]);
      && RefTexts(files[..i + 1], refs) ==
           RefTexts(pre, refs) + (if SampleId(fn) in refs then [refs[SampleId(fn)]] else [])
      && HypTexts(files[..i + 1], refs, inDir, svc) ==
           HypTexts(pre, refs, inDir, svc) + (if SampleId(fn) in refs then [Hypothesis(inDir, svc, fn)] else [])
      && Outputs(files[..i + 1], inDir, outDir, lang, svc, voice) ==
           Outputs(pre, inDir, outDir, lang, svc, voice)[OutPathOf(outDir, lang, fn) := Spoken(inDir, svc, voice, fn)]
  {
    assert files[..i + 1][..i] == files[..i];
  }

  /** Lines 56-123 of src/run_demo.py: resolve the language, load the
      references, list and select the input files, then for each selected
      file recognise, translate, synthesise, and keep the pair when the
      identifier has a reference; score only a non-empty batch. */
  method RunBatch(args: Args, listing: Option<seq<string>>, refFile: Option<seq<string>>, svc: Services)
    returns (r: Result<Report, RunError>)
    ensures ResolveLanguage(args.targetLang).Err? ==> r == Err(InvalidChoice(args.targetLang))
    ensures ResolveLanguage(args.targetLang).Ok? && RefIndexOfFile(refFile).Err? ==>
      r == Err(BadReference(RefIndexOfFile(refFile).error))
    ensures ResolveLanguage(args.targetLang).Ok? && RefIndexOfFile(refFile).Ok? && listing.None? ==>
      r == Err(MissingInputDir)
    ensures ResolveLanguage(args.targetLang).Ok? && RefIndexOfFile(refFile).Ok? && listing.Some? ==>
      var refs := RefIndexOfFile(refFile).value;
      var files := SelectFiles(listing.value, args.numEx);
      var lang := args.targetLang;
      var voice := ResolveLanguage(lang).value;
      r == Ok(Report(voice, files,
                     Outputs(files, args.inDir, args.outDir, lang, svc, voice),
                     RefTexts(files, refs),
                     HypTexts(files, refs, args.inDir, svc),
                     Matched(files, refs) != []))
  {
    var lang := args.targetLang;
    var resolved := ResolveLanguage(lang);
    if resolved.Err? {
      return Err(resolved.error);
    }
    var voice := resolved.value;
    var loaded := LoadReferences(refFile);
    if loaded.Err? {
      return Err(BadReference(loaded.error));
    }
    var refDict := loaded.value;
    if listing.None? {
      return Err(MissingInputDir);
    }
    var files := SelectFiles(listing.value, args.numEx);
    var refTexts, hypTexts := [], [];
    var outputs := map[];
    for i := 0 to |files|
      invariant refTexts == RefTexts(files[..i], refDict)
      invariant hypTexts == HypTexts(files[..i], refDict, args.inDir, svc)
      invariant outputs == Outputs(files[..i], args.inDir, args.outDir, lang, svc, voice)
    {
      var fn := files[i];
      var idx := SampleId(fn);
      var zh := Strip(svc.recognise(Join(args.inDir, fn)));
      var translated := svc.translate(zh, voice.tgtLang);
      var outWav := OutputPath(args.outDir, lang, idx);
      outputs := outputs[outWav := translated];
      if idx in refDict {
        refTexts := refTexts + [refDict[idx]];
        hypTexts := hypTexts + [zh];
      }
      LoopStep(files, i, refDict, args.inDir, args.outDir, lang, svc, voice);
    }
    assert files[..|files|] == files;
    var werComputed := |refTexts| > 0 && |hypTexts| > 0;
    WerGate(files, refDict, args.inDir, svc);
    assert werComputed == (Matched(files, refDict) != []);
    return Ok(Report(voice, files, outputs, refTexts, hypTexts, werComputed));
  }

  /** An empty input directory runs the loop zero times and never scores. */
  lemma EmptyDirectory(numEx: int, refs: map<string, string>)
    ensures SelectFiles([], numEx) == []
    ensures Matched(SelectFiles([], numEx), refs) == []
  {
    assert WavNames([]) == [];
    assert Sort([]) == [];
  }

  /** A plain name `<t>.wav` is synthesised to `outputs/<lang>/<t>_<lang>.wav`
      under the default output directory. */
  lemma DefaultOutPath(t: string, lang: string)
    requires !Occurs(t, ".wav") && (t == [] || t[0] != '/')
    requires lang != [] && lang[0] != '/' && lang[|lang| - 1] != '/'
    ensures OutPathOf(DefaultOutDir, lang, t + ".wav") == "outputs/" + lang + "/" + (t + NameSuffix(lang))
  {
    SampleIdOfPlainName(t);
    OutputPathShape(DefaultOutDir, lang, t);
  }

  lemma ThreeWavNames()
    ensures WavNames(["0000.wav", "0001.wav", "0002.wav"]) == ["0000.wav", "0001.wav", "0002.wav"]
  {
    var listing := ["0000.wav", "0001.wav", "0002.wav"];
    assert EndsWith(listing[0], ".wav") && EndsWith(listing[1], ".wav") && EndsWith(listing[2], ".wav");
    assert listing[1..][1..][1..] == [];
  }

  lemma ThreeSorted()
    ensures Sorted(["0000.wav", "0001.wav", "0002.wav"])
  {
    var listing := ["0000.wav", "0001.wav", "0002.wav"];
    assert LessEq(listing[0], listing[1]) && LessEq(listing[1], listing[2]) by {
      assert listing[0][..3] == listing[1][..3] == listing[2][..3];
    }
    LessEqTransitive(listing[0], listing[1], listing[2]);
  }

  lemma SelectTwoOfThree()
    ensures SelectFiles(["0000.wav", "0001.wav", "0002.wav"], 2) == ["0000.wav", "0001.wav"]
  {
    var listing := ["0000.wav", "0001.wav", "0002.wav"];
    ThreeWavNames();
    ThreeSorted();
    SelectFilesSpec(listing, 2, listing);
  }

  lemma FirstOutputPath()
    ensures OutPathOf(DefaultOutDir, "en", "0000.wav") == "outputs/en/0000_en.wav"
  {
    calc {
      OutPathOf(DefaultOutDir, "en", "0000.wav");
      OutputPath(DefaultOutDir, "en", SampleId("0000.wav"));
      { assert "0000.wav" == "0000" + ".wav";
        NoOccurrence("0000", ".wav");
        SampleIdOfPlainName("0000"); }
      OutputPath(DefaultOutDir, "en", "0000");
      "outputs/en/0000_en.wav";
    }
  }

  lemma SecondOutputPath()
    ensures OutPathOf(DefaultOutDir, "en", "0001.wav") == "outputs/en/0001_en.wav"
  {
    calc {
      OutPathOf(DefaultOutDir, "en", "0001.wav");
      OutputPath(DefaultOutDir, "en", SampleId("0001.wav"));
      { assert "0001.wav" == "0001" + ".wav";
        NoOccurrence("0001", ".wav");
        SampleIdOfPlainName("0001"); }
      OutputPath(DefaultOutDir, "en", "0001");
      "outputs/en/0001_en.wav";
    }
  }

  lemma ImageOfTwo(x: string, y: string, g: string -> string)
    ensures (set f | f in [x, y] :: g(f)) == {g(x), g(y)}
  {
    var s := set f | f in [x, y] :: g(f);
    assert x in [x, y] && y in [x, y];
    forall p | p in s ensures p == g(x) || p == g(y) {
      var f :| f in [x, y] && g(f) == p;
    }
  }

  lemma TwoOutputPaths()
    ensures PathsOf(["0000.wav", "0001.wav"], DefaultOutDir, "en") ==
      {"outputs/en/0000_en.wav", "outputs/en/0001_en.wav"}
  {
    ImageOfTwo("0000.wav", "0001.wav", f => OutPathOf(DefaultOutDir, "en", f));
    FirstOutputPath();
    SecondOutputPath();
  }

  /** Files `0000.wav` to `0002.wav` with `--num-ex 2` process the first two
      and write `0000_en.wav` and `0001_en.wav` under `outputs/en/`. */
  lemma TwoOfThree(svc: Services)
    ensures var files := SelectFiles(["0000.wav", "0001.wav", "0002.wav"], 2);
      && files == ["0000.wav", "0001.wav"]
      && Outputs(files, DefaultInDir, DefaultOutDir, "en", svc, Voice("en", LangToTtsModel["en"])).Keys ==
           {"outputs/en/0000_en.wav", "outputs/en/0001_en.wav"}
  {
    SelectTwoOfThree();
    var files := ["0000.wav", "0001.wav"];
    OutputsKeys(files, DefaultInDir, DefaultOutDir, "en", svc, Voice("en", LangToTtsModel["en"]));
    TwoOutputPaths();
  }
}
