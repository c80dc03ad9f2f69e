/** The `fst` class of fstutils.py: a stack of transducers built by compiling
    grammar files and composing them, queried through its top.  The finite-state
    engine (hfst) is not modelled: what it computes enters as the functions of an
    `Engine` value, and a transducer is a value of the type parameter `T`. */
module FstPipeline {
  import opened StrReplace
  import opened Wrappers

  /** The exceptions the class raises. */
  datatype FstError =
    | EmptyStack                                  // IndexError on `self.transducers[-1]`
    | PathNotFound(input: string)                 // FstPathNotFound
    | GrammarFileMalformed(kind: string, path: string)
    | NoTestCases                                 // ZeroDivisionError in `test_fst`
    | MalformedTestLine(line: nat)                // IndexError in `read_test_file`

  datatype Result<T> = Ok(value: T) | Err(error: FstError)

  datatype Outcome = Pass | Fail(error: FstError)

  /** The engine calls the class makes: the three grammar compilers (`None` when
      hfst cannot process the file), composition, and lookup, which yields the
      (output, weight) paths for an input. */
  datatype Engine<!T, W> = Engine(
    compileLexc: string -> Option<T>,
    compileSfst: string -> Option<T>,
    compileTwol: string -> Option<T>,
    compose: (T, T) -> T,
    lookup: (T, string) -> seq<(string, W)>)

  /** hfst's default epsilon symbol. */
  const Epsilon: string := "@_EPSILON_SYMBOL_@"

  // ---------------------------------------------------------------------------
  // remove_epsilons

  /** `remove_epsilons` as written: the `epsilon` argument is ignored and the
      default symbol is always the one removed, so the result is never longer. */
  function RemoveEpsilonsAsWritten(s: string, epsilon: string): (r: string)
    ensures |r| <= |s|
  {
    ReplaceAllLength(s, Epsilon, "");
    ReplaceAll(s, Epsilon, "")
  }

  /** `remove_epsilons` as documented: every occurrence of `epsilon` is deleted,
      so the result is never longer. */
  function RemoveEpsilons(s: string, epsilon: string): (r: string)
    ensures |r| <= |s|
  {
    ReplaceAllLength(s, epsilon, "");
    ReplaceAll(s, epsilon, "")
  }

  /** A non-empty symbol is removed from a string exactly when it occurs in it,
      and then the string gets strictly shorter. */
  lemma {:induction false} RemoveEpsilonsUnchanged(s: string, epsilon: string)
    requires |epsilon| > 0
    ensures RemoveEpsilons(s, epsilon) == s <==> !Occurs(epsilon, s)
    ensures Occurs(epsilon, s) ==> |RemoveEpsilons(s, epsilon)| < |s|
  {
    ReplaceAllUnchanged(s, epsilon, "");
    ReplaceAllLength(s, epsilon, "");
  }

  /** The as-written version disregards a redefined epsilon symbol, which the
      documented version removes. */
  lemma EpsilonArgumentIgnored()
    ensures RemoveEpsilonsAsWritten("a<e>b", "<e>") == "a<e>b"
    ensures RemoveEpsilons("a<e>b", "<e>") == "ab"
  {
  }

  /** For the default symbol, which is the only one the class ever passes, both
      versions agree. */
  lemma RemoveEpsilonsDefault(s: string, epsilon: string)
    ensures RemoveEpsilons(s, Epsilon) == RemoveEpsilonsAsWritten(s, epsilon)
  {
  }

  /** Deleting one symbol between two strings that lack its first character
      joins them. */
  lemma {:induction false} RemoveEpsilonsJoins(s: string, t: string, epsilon: string)
    requires |epsilon| > 0 && epsilon[0] !in s && epsilon[0] !in t
    ensures RemoveEpsilons(s + epsilon + t, epsilon) == s + t
  {
    ReplaceAllJoin(s, t, epsilon, "");
  }

  /** For the default symbol: strings without `@` around it are joined. */
  lemma {:induction false} RemoveDefaultEpsilonJoins(s: string, t: string)
    requires '@' !in s && '@' !in t
    ensures RemoveEpsilons(s + Epsilon + t, Epsilon) == s + t
    ensures RemoveEpsilonsAsWritten(s + Epsilon + t, "") == s + t
  {
    assert Epsilon[0] == '@';
    RemoveEpsilonsJoins(s, t, Epsilon);
  }

  /** A single left-to-right pass can leave a symbol behind: the symbol's first
      character in front of an occurrence, with the rest of the symbol after it,
      joins up into a new one. */
  lemma RemoveEpsilonsSinglePass()
    ensures RemoveEpsilons([Epsilon[0]] + Epsilon + Epsilon[1..], Epsilon) == Epsilon
  {
    assert Epsilon[0] == '@' && Epsilon[1] == '_';
    ReplaceAllMissThenJoin(Epsilon[0], Epsilon[1..], Epsilon, "");
    assert [Epsilon[0]] + "" + Epsilon[1..] == Epsilon;
  }

  // ---------------------------------------------------------------------------
  // lookup

  /** The output side of each path with its epsilons removed; weights are dropped. */
  function Outputs<W>(paths: seq<(string, W)>): (r: seq<string>)
    ensures |r| == |paths|
    ensures forall k :: 0 <= k < |paths| ==> r[k] == RemoveEpsilons(paths[k].0, Epsilon)
  {
    if paths == [] then [] else [RemoveEpsilons(paths[0].0, Epsilon)] + Outputs(paths[1..])
  }

  /** The lookup `lookup` performs on one transducer: no path is an error, and
      otherwise there is one cleaned output per path, in the engine's order. */
  function LookupIn<T, W>(lookup: (T, string) -> seq<(string, W)>, t: T, s: string): (r: Result<seq<string>>)
    ensures r.Err? <==> lookup(t, s) == []
    ensures r.Err? ==> r.error == PathNotFound(s)
    ensures r.Ok? ==> |r.value| == |lookup(t, s)| > 0
    ensures r.Ok? ==> forall k :: 0 <= k < |r.value| ==> r.value[k] == RemoveEpsilons(lookup(t, s)[k].0, Epsilon)
  {
    var paths := lookup(t, s);
    if paths == [] then Err(PathNotFound(s)) else Ok(Outputs(paths))
  }

  // ---------------------------------------------------------------------------
  // test_fst

  /** The number of produced outputs that are not in the expected list. */
  function Unexpected(outputs: seq<string>, expected: seq<string>): (n: nat)
    ensures n <= |outputs|
  {
    if outputs == [] then 0
    else Unexpected(outputs[..|outputs| - 1], expected) + (if outputs[|outputs| - 1] in expected then 0 else 1)
  }

  /** The inner loop of `test_fst` over the outputs produced for one key. */
  method CountUnexpected(items: seq<string>, analyses: seq<string>) returns (n: nat)
    ensures n == Unexpected(items, analyses)
  {
    n := 0;
    var j := 0;
    while j < |items|
      invariant 0 <= j <= |items|
      invariant n == Unexpected(items[..j], analyses)
    {
      assert items[..j + 1][..j] == items[..j];
      if items[j] !in analyses {
        n := n + 1;
      }
      j := j + 1;
    }
    assert items[..j] == items;
  }

  /** No output is counted exactly when every output is expected. */
  lemma {:induction false} UnexpectedZero(outputs: seq<string>, expected: seq<string>)
    ensures Unexpected(outputs, expected) == 0 <==> forall o :: o in outputs ==> o in expected
  {
    if outputs != [] {
      var init := outputs[..|outputs| - 1];
      UnexpectedZero(init, expected);
      assert outputs == init + [outputs[|outputs| - 1]];
      assert forall o :: o in outputs <==> o in init || o == outputs[|outputs| - 1];
    }
  }

  /** The error count `test_fst` accumulates over the first keys of the table, or
      the lookup error raised for the first key without a path. */
  function ErrorCount<T, W>(lookup: (T, string) -> seq<(string, W)>, t: T, expected: seq<(string, seq<string>)>): Result<nat>
  {
    if expected == [] then Ok(0)
    else
      var last := expected[|expected| - 1];
      match ErrorCount(lookup, t, expected[..|expected| - 1])
      case Err(e) => Err(e)
      case Ok(n) =>
        match LookupIn(lookup, t, last.0)
        case Err(e) => Err(e)
        case Ok(outputs) => Ok(n + Unexpected(outputs, last.1))
  }

  /** The verdict of `test_fst`: it passes when the error count is zero; an empty
      table makes the error-percentage division fail. */
  function Verdict<T, W>(lookup: (T, string) -> seq<(string, W)>, t: T, expected: seq<(string, seq<string>)>): Result<bool>
  {
    match ErrorCount(lookup, t, expected)
    case Err(e) => Err(e)
    case Ok(n) => if expected == [] then Err(NoTestCases) else Ok(n == 0)
  }

  /** Every produced output for `key` is among the expected analyses. */
  predicate KeyPasses<T, W>(lookup: (T, string) -> seq<(string, W)>, t: T, key: string, analyses: seq<string>)
  {
    var r := LookupIn(lookup, t, key);
    r.Ok? && forall o :: o in r.value ==> o in analyses
  }

  /** One more key of the table: after a prefix counted `n` errors, a key
      without a path raises for the whole table, and otherwise the count grows
      by the key's unexpected outputs. */
  lemma {:induction false} ErrorCountStep<T, W>(lookup: (T, string) -> seq<(string, W)>, t: T,
                             expected: seq<(string, seq<string>)>, i: nat, n: nat)
    requires i < |expected| && ErrorCount(lookup, t, expected[..i]) == Ok(n)
    ensures LookupIn(lookup, t, expected[i].0).Err? ==>
      ErrorCount(lookup, t, expected) == Err(PathNotFound(expected[i].0))
    ensures LookupIn(lookup, t, expected[i].0).Ok? ==>
      ErrorCount(lookup, t, expected[..i + 1]) ==
        Ok(n + Unexpected(LookupIn(lookup, t, expected[i].0).value, expected[i].1))
  {
    assert expected[..i + 1][..i] == expected[..i];
    if LookupIn(lookup, t, expected[i].0).Err? {
      ErrorCountSticks(lookup, t, expected, i + 1);
    }
  }

  /** Once a prefix of the table has raised, so has the whole table. */
  lemma {:induction false} ErrorCountSticks<T, W>(lookup: (T, string) -> seq<(string, W)>, t: T,
                                                   expected: seq<(string, seq<string>)>, i: nat)
    requires i <= |expected| && ErrorCount(lookup, t, expected[..i]).Err?
    ensures ErrorCount(lookup, t, expected) == ErrorCount(lookup, t, expected[..i])
    decreases |expected|
  {
    if i < |expected| {
      var init := expected[..|expected| - 1];
      assert init[..i] == expected[..i];
      ErrorCountSticks(lookup, t, init, i);
    } else {
      assert expected[..i] == expected;
    }
  }

  /** The error count is defined exactly when every key has a path. */
  lemma {:induction false} ErrorCountDefined<T, W>(lookup: (T, string) -> seq<(string, W)>, t: T,
                                                    expected: seq<(string, seq<string>)>)
    ensures ErrorCount(lookup, t, expected).Ok? <==>
      forall k :: 0 <= k < |expected| ==> lookup(t, expected[k].0) != []
  {
    if expected != [] {
      var init := expected[..|expected| - 1];
      ErrorCountDefined(lookup, t, init);
      assert forall k :: 0 <= k < |init| ==> init[k] == expected[k];
    }
  }

  /** The error count is zero exactly when every key passes. */
  lemma {:induction false} ErrorCountZero<T, W>(lookup: (T, string) -> seq<(string, W)>, t: T,
                                                 expected: seq<(string, seq<string>)>)
    ensures ErrorCount(lookup, t, expected) == Ok(0) <==>
      forall k :: 0 <= k < |expected| ==> KeyPasses(lookup, t, expected[k].0, expected[k].1)
  {
    if expected != [] {
      var init := expected[..|expected| - 1];
      var last := expected[|expected| - 1];
      ErrorCountZero(lookup, t, init);
      var r := LookupIn(lookup, t, last.0);
      if r.Ok? {
        UnexpectedZero(r.value, last.1);
      }
      assert forall k :: 0 <= k < |init| ==> init[k] == expected[k];
    }
  }

  /** A raised lookup error names the first key of the table without a path. */
  lemma {:induction false} ErrorCountFirstMissing<T, W>(lookup: (T, string) -> seq<(string, W)>, t: T,
                                                         expected: seq<(string, seq<string>)>)
    requires ErrorCount(lookup, t, expected).Err?
    ensures exists k :: (0 <= k < |expected| && lookup(t, expected[k].0) == []
      && ErrorCount(lookup, t, expected).error == PathNotFound(expected[k].0)
      && forall j :: 0 <= j < k ==> lookup(t, expected[j].0) != [])
  {
    var init := expected[..|expected| - 1];
    var n := |expected| - 1;
    assert forall k :: 0 <= k < |init| ==> init[k] == expected[k];
    if ErrorCount(lookup, t, init).Err? {
      ErrorCountFirstMissing(lookup, t, init);
      var k :| 0 <= k < |init| && lookup(t, init[k].0) == [] &&
        ErrorCount(lookup, t, init).error == PathNotFound(init[k].0) &&
        forall j :: 0 <= j < k ==> lookup(t, init[j].0) != [];
      assert lookup(t, expected[k].0) == [];
    } else {
      ErrorCountDefined(lookup, t, init);
      assert lookup(t, expected[n].0) == [];
    }
  }

  /** `test_fst` passes exactly when the table is non-empty and every produced
      output of every key is expected; under-generation is not counted. */
  lemma {:induction false} VerdictMeaning<T, W>(lookup: (T, string) -> seq<(string, W)>, t: T, expected: seq<(string, seq<string>)>)
    ensures Verdict(lookup, t, expected) == Ok(true) <==>
      expected != [] && forall k :: 0 <= k < |expected| ==> KeyPasses(lookup, t, expected[k].0, expected[k].1)
    ensures Verdict(lookup, t, expected).Ok? <==>
      expected != [] && forall k :: 0 <= k < |expected| ==> lookup(t, expected[k].0) != []
  {
    ErrorCountDefined(lookup, t, expected);
    ErrorCountZero(lookup, t, expected);
  }

  // ---------------------------------------------------------------------------
  // read_test_file

  /** A dictionary as its items in insertion order. */
  function Get(d: seq<(string, string)>, key: string): Option<string>
  {
    if d == [] then None else if d[0].0 == key then Some(d[0].1) else Get(d[1..], key)
  }

  /** `d[key] = value`: an existing key keeps its position and takes the new
      value; a new key goes at the end. */
  function Insert(d: seq<(string, string)>, key: string, value: string): (r: seq<(string, string)>)
    ensures Get(r, key) == Some(value)
    ensures forall k :: k != key ==> Get(r, k) == Get(d, k)
    ensures |r| == if Get(d, key).Some? then |d| else |d| + 1
    ensures forall k :: 0 <= k < |d| ==> r[k].0 == d[k].0
    ensures Get(d, key).None? ==> r == d + [(key, value)]
  {
    if d == [] then [(key, value)]
    else if d[0].0 == key then [(key, value)] + d[1..]
    else [d[0]] + Insert(d[1..], key, value)
  }

  /** The expected-output table `read_test_file` builds from lines already split
      into tokens: the first token is the key, the second the analysis, and a
      later line overwrites an earlier one with the same key.  A line with fewer
      than two tokens raises. */
  function ParseLines(lines: seq<seq<string>>): Result<seq<(string, string)>>
  {
    if lines == [] then Ok([])
    else
      var last := lines[|lines| - 1];
      match ParseLines(lines[..|lines| - 1])
      case Err(e) => Err(e)
      case Ok(d) =>
        if |last| < 2 then Err(MalformedTestLine(|lines| - 1)) else Ok(Insert(d, last[0], last[1]))
  }

  /** The loop of `read_test_file` over the lines of the file. */
  method ReadTestLines(lines: seq<seq<string>>) returns (r: Result<seq<(string, string)>>)
    ensures r == ParseLines(lines)
  {
    var expectedOutput: seq<(string, string)> := [];
    var i := 0;
    while i < |lines|
      invariant 0 <= i <= |lines|
      invariant ParseLines(lines[..i]) == Ok(expectedOutput)
    {
      assert lines[..i + 1][..i] == lines[..i];
      var line := lines[i];
      if |line| < 2 {
        r := Err(MalformedTestLine(i));
        ParseLinesSticks(lines, i + 1);
        return;
      }
      expectedOutput := Insert(expectedOutput, line[0], line[1]);
      i := i + 1;
    }
    assert lines[..i] == lines;
    r := Ok(expectedOutput);
  }

  /** Once a prefix of the file has raised, so has the whole file. */
  lemma {:induction false} ParseLinesSticks(lines: seq<seq<string>>, i: nat)
    requires i <= |lines| && ParseLines(lines[..i]).Err?
    ensures ParseLines(lines) == ParseLines(lines[..i])
    decreases |lines|
  {
    if i < |lines| {
      var init := lines[..|lines| - 1];
      assert init[..i] == lines[..i];
      ParseLinesSticks(init, i);
    } else {
      assert lines[..i] == lines;
    }
  }

  /** The parse succeeds exactly when every line has at least two tokens. */
  lemma {:induction false} ParseLinesSucceeds(lines: seq<seq<string>>)
    ensures ParseLines(lines).Ok? <==> forall m :: 0 <= m < |lines| ==> |lines[m]| >= 2
  {
    if lines != [] {
      var init := lines[..|lines| - 1];
      ParseLinesSucceeds(init);
      assert forall m :: 0 <= m < |init| ==> init[m] == lines[m];
    }
  }

  /** The keys of the parsed table are exactly the first tokens of the lines. */
  lemma {:induction false} ParseLinesKeys(lines: seq<seq<string>>, key: string)
    requires forall m :: 0 <= m < |lines| ==> |lines[m]| >= 2
    ensures ParseLines(lines).Ok?
    ensures Get(ParseLines(lines).value, key).Some? <==> exists m :: 0 <= m < |lines| && lines[m][0] == key
  {
    ParseLinesSucceeds(lines);
    if lines != [] {
      var init := lines[..|lines| - 1];
      var n := |lines| - 1;
      ParseLinesKeys(init, key);
      if key != lines[n][0] {
        if exists m :: 0 <= m < |lines| && lines[m][0] == key {
          var m :| 0 <= m < |lines| && lines[m][0] == key;
          assert init[m] == lines[m];
        }
      }
    }
  }

  /** Each key maps to the second token of the last line that has that key. */
  lemma {:induction false} ParseLinesLastWins(lines: seq<seq<string>>, m: nat)
    requires forall k :: 0 <= k < |lines| ==> |lines[k]| >= 2
    requires m < |lines| && forall m' :: m < m' < |lines| ==> lines[m'][0] != lines[m][0]
    ensures ParseLines(lines).Ok?
    ensures Get(ParseLines(lines).value, lines[m][0]) == Some(lines[m][1])
  {
    ParseLinesSucceeds(lines);
    var init := lines[..|lines| - 1];
    var n := |lines| - 1;
    if m < n {
      assert init[m] == lines[m];
      assert forall m' :: m < m' < |init| ==> init[m'] == lines[m'];
      ParseLinesLastWins(init, m);
    }
  }

  // ---------------------------------------------------------------------------
  // the class

  class Fst<T, W> {
    /** The hfst calls this object makes. */
    const engine: Engine<T, W>
    /** `self.transducers`: the stack, top last. */
    var transducers: seq<T>

    constructor (engine: Engine<T, W>)
      ensures this.engine == engine && transducers == []
    {
      this.engine := engine;
      transducers := [];
    }

    /** The transducer on top of the stack. */
    function Top(): T
      reads this
      requires transducers != []
    {
      transducers[|transducers| - 1]
    }

    /** `clear`: the stack is emptied. */
    method Clear()
      modifies this
      ensures transducers == []
    {
      transducers := [];
    }

    /** `compose`: the composition of the current top with `transducer` is pushed;
        the old top (copied before composing) and everything below it stay. */
    method Compose(transducer: T) returns (r: Outcome)
      modifies this
      ensures old(transducers) == [] ==> r == Fail(EmptyStack) && transducers == old(transducers)
      ensures old(transducers) != [] ==>
        r == Pass && transducers == old(transducers) + [engine.compose(old(Top()), transducer)]
    {
      if transducers == [] {
        return Fail(EmptyStack);
      }
      var top := Top();
      transducers := transducers + [engine.compose(top, transducer)];
      r := Pass;
    }

    /** The shared body of the three `compile_*_file` methods. */
    method PushCompiled(compiled: Option<T>, kind: string, path: string) returns (r: Outcome)
      modifies this
      ensures compiled.None? ==> r == Fail(GrammarFileMalformed(kind, path)) && transducers == old(transducers)
      ensures compiled.Some? ==> r == Pass && transducers == old(transducers) + [compiled.value]
    {
      if compiled.None? {
        return Fail(GrammarFileMalformed(kind, path));
      }
      transducers := transducers + [compiled.value];
      r := Pass;
    }

    /** `compile_lexc_file`. */
    method CompileLexcFile(path: string) returns (r: Outcome)
      modifies this
      ensures engine.compileLexc(path).None? ==>
        r == Fail(GrammarFileMalformed("lexc", path)) && transducers == old(transducers)
      ensures engine.compileLexc(path).Some? ==>
        r == Pass && transducers == old(transducers) + [engine.compileLexc(path).value]
    {
      r := PushCompiled(engine.compileLexc(path), "lexc", path);
    }

    /** `compile_sfst_file`. */
    method CompileSfstFile(path: string) returns (r: Outcome)
      modifies this
      ensures engine.compileSfst(path).None? ==>
        r == Fail(GrammarFileMalformed("sfst", path)) && transducers == old(transducers)
      ensures engine.compileSfst(path).Some? ==>
        r == Pass && transducers == old(transducers) + [engine.compileSfst(path).value]
    {
      r := PushCompiled(engine.compileSfst(path), "sfst", path);
    }

    /** `compile_twol_file`. */
    method CompileTwolFile(path: string) returns (r: Outcome)
      modifies this
      ensures engine.compileTwol(path).None? ==>
        r == Fail(GrammarFileMalformed("twol", path)) && transducers == old(transducers)
      ensures engine.compileTwol(path).Some? ==>
        r == Pass && transducers == old(transducers) + [engine.compileTwol(path).value]
    {
      r := PushCompiled(engine.compileTwol(path), "twol", path);
    }

    /** `lookup`: the input is looked up in the top transducer. */
    function Lookup(s: string): (r: Result<seq<string>>)
      reads this
      ensures transducers == [] ==> r == Err(EmptyStack)
      ensures transducers != [] ==> (r.Ok? <==> engine.lookup(Top(), s) != [])
      ensures transducers != [] && r.Err? ==> r.error == PathNotFound(s)
      ensures r.Ok? ==> |r.value| == |engine.lookup(Top(), s)|
      ensures r.Ok? ==> forall k :: 0 <= k < |r.value| ==>
        r.value[k] == RemoveEpsilons(engine.lookup(Top(), s)[k].0, Epsilon)
    {
      if transducers == [] then Err(EmptyStack) else LookupIn(engine.lookup, Top(), s)
    }

    /** `test_fst`: every key of the table is looked up in `transducer`, and every
        produced output missing from the key's expected analyses is an error. */
    method TestFst(transducer: T, expected: seq<(string, seq<string>)>) returns (r: Result<bool>)
      ensures r == Verdict(engine.lookup, transducer, expected)
    {
      var lookup := engine.lookup;
      var errorCount := 0;
      var i := 0;
      while i < |expected|
        invariant 0 <= i <= |expected|
        invariant ErrorCount(lookup, transducer, expected[..i]) == Ok(errorCount)
      {
        var key := expected[i].0;
        ErrorCountStep(lookup, transducer, expected, i, errorCount);
        var results := LookupIn(lookup, transducer, key);
        if results.Err? {
          return Err(results.error);
        }
        var unexpected := CountUnexpected(results.value, expected[i].1);
        errorCount := errorCount + unexpected;
        i := i + 1;
      }
      assert expected[..i] == expected;
      if |expected| == 0 {
        return Err(NoTestCases);
      }
      r := Ok(errorCount == 0);
    }
  }
}
