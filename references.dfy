/** The reference-transcript index of src/run_demo.py: every line of the
    `--ref-trans` file is stripped and split at its first `|` into a sample
    identifier and its reference text. */
module References {
  import opened Wrappers
  import opened PyStr

  /** `ValueError` raised by the two-name unpacking on the line with this
      (zero-based) number: it aborts the whole run. */
  datatype RefError = MalformedLine(index: nat)

  /** `line.strip().split("|", 1)` unpacked into `idx, txt`. */
  function ParseLine(line: string): Option<(string, string)> {
    SplitOnce(Strip(line), '|')
  }

  /** The dictionary the loop has built after reading `lines`, or the error
      of the first malformed line. */
  function RefIndex(lines: seq<string>): Result<map<string, string>, RefError>
    decreases |lines|
  {
    if lines == [] then Ok(map[])
    else match RefIndex(lines[..|lines| - 1])
      case Err(e) => Err(e)
      case Ok(m) =>
        match ParseLine(lines[|lines| - 1])
        case None => Err(MalformedLine(|lines| - 1))
        case Some(kv) => Ok(m[kv.0 := kv.1])
  }

  /** The index a run starts from: empty when the reference file does not
      exist. */
  function RefIndexOfFile(file: Option<seq<string>>): Result<map<string, string>, RefError> {
    match file
    case None => Ok(map[])
    case Some(lines) => RefIndex(lines)
  }

  /** A line can be loaded exactly when its stripped text holds a `|`. */
  predicate WellFormed(line: string) {
    '|' in Strip(line)
  }

  lemma ParseLineSucceeds(line: string)
    ensures ParseLine(line).Some? <==> WellFormed(line)
  {
    SplitOnceParts(Strip(line), '|');
  }

  /** Loading fails exactly when some stripped line holds no `|` (an empty or
      blank line included), and then it names the first such line. */
  lemma {:induction false} RefIndexFails(lines: seq<string>)
    ensures RefIndex(lines).Ok? <==> forall i :: 0 <= i < |lines| ==> WellFormed(lines[i])
    ensures RefIndex(lines).Err? ==>
      var k := RefIndex(lines).error.index;
      k < |lines| && !WellFormed(lines[k]) &&
      forall i :: 0 <= i < k ==> WellFormed(lines[i])
    decreases |lines|
  {
    if lines != [] {
      var n := |lines| - 1;
      var init := lines[..n];
      RefIndexFails(init);
      assert forall i :: 0 <= i < n ==> init[i] == lines[i];
      ParseLineSucceeds(lines[n]);
      if RefIndex(init).Ok? {
        assert RefIndex(lines).Ok? <==> ParseLine(lines[n]).Some?;
      } else {
        assert RefIndex(lines) == RefIndex(init);
      }
    }
  }

  /** The line carries `key`: it parses, and `key` is the text before its
      first `|`. */
  predicate Carries(line: string, key: string) {
    ParseLine(line).Some? && ParseLine(line).value.0 == key
  }

  /** The last line that carries `key`, if any. */
  function LastCarrier(lines: seq<string>, key: string): (r: Option<nat>)
    ensures r.Some? ==> r.value < |lines| && Carries(lines[r.value], key)
    ensures r.Some? ==> forall j :: r.value < j < |lines| ==> !Carries(lines[j], key)
    ensures r.None? ==> forall j :: 0 <= j < |lines| ==> !Carries(lines[j], key)
    decreases |lines|
  {
    if lines == [] then None
    else if Carries(lines[|lines| - 1], key) then Some(|lines| - 1)
    else
      var r := LastCarrier(lines[..|lines| - 1], key);
      assert forall j :: 0 <= j < |lines| - 1 ==> lines[..|lines| - 1][j] == lines[j];
      r
  }

  /** A key is in the index exactly when some line carries it, and its text
      is the one from the last such line: later lines overwrite earlier ones. */
  lemma {:induction false} RefIndexLookup(lines: seq<string>, key: string)
    requires RefIndex(lines).Ok?
    ensures key in RefIndex(lines).value <==> LastCarrier(lines, key).Some?
    ensures LastCarrier(lines, key).Some? ==>
      RefIndex(lines).value[key] == ParseLine(lines[LastCarrier(lines, key).value]).value.1
    decreases |lines|
  {
    if lines != [] {
      var n := |lines| - 1;
      var init := lines[..n];
      assert RefIndex(init).Ok?;
      RefIndexLookup(init, key);
    }
  }

  /** An error stays an error whatever lines follow it. */
  lemma {:induction false} RefIndexErrorPersists(lines: seq<string>, k: nat)
    requires k <= |lines| && RefIndex(lines[..k]).Err?
    ensures RefIndex(lines) == RefIndex(lines[..k])
    decreases |lines| - k
  {
    if k < |lines| {
      assert lines[..k + 1][..k] == lines[..k];
      RefIndexErrorPersists(lines, k + 1);
    } else {
      assert lines[..k] == lines;
    }
  }

  /** Lines 72-77 of src/run_demo.py: `ref_dict` starts empty and, when the
      reference file exists, every line read adds or overwrites one entry. */
  method LoadReferences(file: Option<seq<string>>) returns (r: Result<map<string, string>, RefError>)
    ensures r == RefIndexOfFile(file)
  {
    var refDict := map[];
    if file.Some? {
      var lines := file.value;
      var i := 0;
      while i < |lines|
        invariant 0 <= i <= |lines|
        invariant RefIndex(lines[..i]) == Ok(refDict)
      {
        assert lines[..i + 1][..i] == lines[..i];
        match ParseLine(lines[i]) {
          case None =>
            RefIndexErrorPersists(lines, i + 1);
            return Err(MalformedLine(i));
          case Some(kv) =>
            refDict := refDict[kv.0 := kv.1];
        }
        i := i + 1;
      }
      assert lines[..i] == lines;
    }
    return Ok(refDict);
  }
}
