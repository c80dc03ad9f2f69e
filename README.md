# fstutils: set definitions and the transducer stack, in Dafny

`fstutils.py` is a helper module for a finite-state morphology lab built on hfst.
This project models its logic in Dafny:

- **`Definitions`** is a registry of named regex sets, such as `V` for
  `[a|e|i|o|u]`. Set names may appear inside other sets. The constructor
  substitutes names into expansions until nothing changes. After that,
  `replace` substitutes every set name into a regex string. The model is in
  `definitions.dfy`, module `SetDefinitions`.
- **`fst`** holds a stack of transducers. The stack is built by compiling lexc,
  sfst and twol grammar files and by composing a transducer onto the top.
  `lookup` queries the top transducer and strips hfst's epsilon symbol.
  `test_fst` compares the outputs of a transducer with a table of expected
  analyses, and `read_test_file` builds that table. The model is in `fst.dfy`,
  module `FstPipeline`.
- Both rest on Python's `str.replace`. `replace.dfy` (module `StrReplace`)
  defines it as `ReplaceAll`, including the empty-pattern case
  (`"ab".replace("", "X") == "XaXbX"`), and proves when it changes a string.

How the model is built:

- The Python dictionaries become sequences of `(key, value)` pairs with
  distinct keys. This makes the iteration order explicit.
- hfst itself is a parameter. An `Engine` value carries the three compilers,
  `compose` and `lookup` as functions, and a transducer is a value of a type
  parameter.
- Exceptions become an `Err`/`Fail` value of type `FstError`.

The constructor loops (fstutils.py:191-202) are three methods, one per loop
level:

- `Scan` is the inner `for` loop with its `break`.
- `SettleEntry` is the `while replaced` loop.
- `Resolve` is the outer `for` loop.

`Replace`, `TestFst` and `ReadTestLines` keep the source's loops. Each is
proved equal to a specification function (`ApplyAll`, `Verdict`,
`ParseLines`), and lemmas prove what those functions mean. The `fst` class is
a Dafny class whose `transducers` field the methods reassign.

## What the resolver guarantees

Neither the class docstring nor the constructor's docstring says what the
table looks like after construction; only the loops at fstutils.py:191-202
decide it. `Resolution` is the specification function of those loops, and
`Resolve` is proved equal to it. What the loops leave behind comes in two
parts:

- An entry is always stable with respect to every entry before it in the
  table. Substituting the earlier entry into it changes nothing.
- It is stable with respect to **every** other entry when no set name occurs
  inside another set name (`NamesIndependent`).

The condition is needed. For `{"aab": "", "b": "ab", "ab": "ab"}`, processing
`"b"` leaves `"ab"` alone because `"ab"` maps to itself at that moment. Then
processing `"ab"` substitutes `"b"` and then `"aab"`, and the value of `"ab"`
becomes `""`. So `"b"`'s final value `"ab"` still mentions a set whose value is
no longer its own name. `ResolveOverlappingNames` computes this run step by
step, and `ResolveInlinesSets` computes the ordinary case: with `V`, `C` and
`Seg = "V|C"`, `Seg` ends as `"[ae]|[bd]"`.

With independent names, `ReplaceNameGivesExpansion` shows that `replace`
applied to a lone set name yields that set's resolved expansion.
`ReplaceNotIdempotent` shows that `replace` is still not idempotent, even on a
resolved table. A later substitution can complete an earlier name:
`[("ab","c"), ("y","b")]` maps `"ay"` to `"ab"`, and `"ab"` to `"c"`.

## Where the source is inconsistent

Three behaviours of the code are easy to misread, and the model keeps them as
written:

- `test_fst` counts only over-generation (lines 121-124): produced outputs
  that are not among the expected analyses. An expected analysis that is never
  produced adds nothing to the count.
- A key without any path makes `lookup` raise `FstPathNotFound` (lines
  103-104), and `test_fst` does not catch it, so the whole test raises.
- `read_test_file` assigns `expected_output[line[0]] = line[1]` (line 166),
  so a later line with the same key overwrites the earlier one.

Where the code cannot run as written, the model follows its evident intent:

- Line 15 (` = hfst.regex`) is a syntax error and is ignored.
- Line 40 in `sequence_walk` uses the unqualified name `transducers`, which
  raises `NameError`.
- Line 41 has an unbalanced parenthesis, a syntax error inside
  `sequence_walk`, which the model leaves out.
- Line 43 annotates `filepath:string`, and `string` is not defined. In
  Python before 3.14, which evaluates annotations eagerly, the annotation
  raises `NameError` when the class body runs. The model ignores the
  annotation.
- Line 32 appends to `self.transducer`. The model appends to
  `self.transducers`.
- Lines 106 and 120 call `remove_epsilons` and `lookup` as free functions.
  The model uses the class's own operations. For line 120 this means a lookup
  in the transducer passed to `test_fst`, with the same `FstPathNotFound`
  behaviour and epsilon stripping as `lookup`.
- Line 123 concatenates a string with a list, which raises `TypeError` as
  soon as an unexpected output is found. The model treats the line as the
  diagnostic print it is meant to be.
- `read_test_file` and `pairs` are declared in the class without `self`. The
  model treats `read_test_file` as a plain function.
- `read_test_file` produces one analysis string per key, but `test_fst`'s
  docstring asks for a list of analyses per key. `TestFst` takes lists, and
  `item not in expected[key]` is list membership.
- `test_fst` divides by the number of keys (line 126). An empty table
  therefore raises `ZeroDivisionError`, modelled as `NoTestCases`.

## Model

| member | source | states |
|---|---|---|
| `StrReplace.ReplaceAllUnchanged` | fstutils.py:197-198 | `s.replace(p, r) == s` holds exactly when `p` does not occur in `s` or `r == p`, so the resolver's `result != regex` test detects a real substitution |
| `StrReplace.ReplaceAllAbsent` | fstutils.py:197 | without an occurrence of the pattern, `str.replace` returns its input |
| `StrReplace.ReplaceAllWhole` | fstutils.py:214 | a string equal to the pattern is replaced by the replacement |
| `StrReplace.ReplaceAllJoin` | fstutils.py:91 | a single occurrence between two strings that lack the pattern's first character is the only thing replaced |
| `StrReplace.ReplaceAllMissThenJoin` | fstutils.py:91 | for a pattern whose second character differs from its first, an occurrence one character in, with less than a pattern's length after it, is the only thing replaced |
| `StrReplace.ReplaceAllLength` | fstutils.py:197-198 | a replacement at least as long as the pattern never shortens the string, one at most as long never lengthens it, and an occurrence makes either strict |
| `StrReplace.ReplaceAllIdentity` | fstutils.py:197-198 | replacing a pattern by itself changes nothing |
| `SetDefinitions.FirstChange` | fstutils.py:195-202 | the entry the inner `for` loop breaks at: the first other entry, in table order, whose substitution changes the expansion; when there is none, every other entry is stable in it |
| `SetDefinitions.Settling` | fstutils.py:192-202 | the `while replaced` loop as a function: rewrites the entry with the substitution `FirstChange` picks until none changes it, one scan per budget unit; it keeps the keys, and `None` means the budget ran out |
| `SetDefinitions.ResolvingFrom` | fstutils.py:191-202 | the outer `for` loop from a given entry on, settling each entry in turn with the budget left by the previous ones; it keeps the keys |
| `SetDefinitions.Resolution` | fstutils.py:190-202 | the table the constructor leaves behind, or `None` when `fuel` scans do not suffice; it keeps the keys in order |
| `SetDefinitions.Scan` | fstutils.py:195-202 | the inner loop breaks exactly at `FirstChange` and returns the substituted value, which differs from the old one; with no break, every other entry is stable in the expansion |
| `SetDefinitions.SettleEntry` | fstutils.py:192-202 | the `while replaced` loop computes `Settling`; it rewrites only the entry being processed and ends with it settled against every other entry; an entry already settled is left as it is at the cost of one scan |
| `SetDefinitions.Resolve` | fstutils.py:190-202 | the three loops compute `Resolution`; when it returns, keys are unchanged and in order, an entry that mentions no other name keeps its value, every entry is stable with respect to every earlier entry and, with independent names, to every other entry, and an already resolved table comes back unchanged |
| `SetDefinitions.SettlingMoreFuel` | fstutils.py:192-202 | a larger budget settles an entry to the same value and leaves the surplus unspent, so `None` only ever means that the budget ran out |
| `SetDefinitions.ResolvingMoreFuel` | fstutils.py:191-202 | once some budget resolves the table, every larger budget gives the same table |
| `SetDefinitions.SettlingFrame` | fstutils.py:198-199 | settling one entry writes only `self.defs[fstname]`: every other entry keeps its value |
| `SetDefinitions.SettlingSettles` | fstutils.py:192-202 | when the `while replaced` loop ends, no other entry's substitution changes the processed expansion; an entry already in that state costs one scan and stays as it is |
| `SetDefinitions.SettlingResolvesOneMore` | fstutils.py:191-202 | one round of the outer loop adds the processed entry to the resolved prefix and keeps the earlier ones resolved |
| `SetDefinitions.ResolvingFromResolves` | fstutils.py:191-202 | the rest of the outer loop extends a resolved prefix to the whole table |
| `SetDefinitions.ResolvingFromKeeps` | fstutils.py:191-202 | an entry that mentions no other name keeps its value through the rest of the outer loop, whether it is processed before or after the others change |
| `SetDefinitions.ResolvingFromSettled` | fstutils.py:191-202 | on entries that are already settled, the rest of the outer loop changes nothing and needs one scan per entry |
| `SetDefinitions.ResolutionResolves` | fstutils.py:190-202 | every entry of the constructed table is stable with respect to every earlier entry and, with independent names, to every other entry |
| `SetDefinitions.ResolutionKeeps` | fstutils.py:190-202 | an entry whose value mentions no other name keeps its value |
| `SetDefinitions.ResolutionOfSettled` | fstutils.py:190-202 | an already resolved table comes back unchanged given one scan per entry |
| `SetDefinitions.ResolveInlinesSets` | fstutils.py:190-202 | for `{"V": "[ae]", "C": "[bd]", "Seg": "V|C"}` the constructor rewrites `Seg` to `"[ae]|[bd]"` and keeps `V` and `C` |
| `SetDefinitions.ResolveOverlappingNames` | fstutils.py:190-202 | for `{"aab": "", "b": "ab", "ab": "ab"}`, whose names overlap, the constructor rewrites `"ab"` to `""` and leaves `"b"` mapped to `"ab"`, which is then not stable with respect to `"ab"` |
| `SetDefinitions.ResolveSwappedNames` | fstutils.py:190-202 | the cyclic table `{"A": "B", "B": "A"}` resolves, in four scans, to `{"A": "A", "B": "A"}` |
| `SetDefinitions.GrowingNeverSettles` | fstutils.py:192-202 | with `A` expanded to `"xyA"`, the `while replaced` loop for `B` substitutes `A` on every scan and never stops, whatever the budget |
| `SetDefinitions.ResolveGrowingNames` | fstutils.py:190-202 | the cyclic table `{"A": "xB", "B": "yA"}` is not resolved by any budget of scans, so the constructor does not return |
| `SetDefinitions.SettleStep` | fstutils.py:191-202 | processing one entry preserves stability of the entries processed earlier and adds the processed entry |
| `SetDefinitions.UnmentionedIsSettled` | fstutils.py:195-201 | an expansion that mentions no other name is never rewritten |
| `SetDefinitions.StableMeansNameAbsent` | fstutils.py:196-201 | in a stable pair, the expansion of one set contains the other set's name only when that set is defined as its own name |
| `SetDefinitions.Replace` | fstutils.py:205-215 | `replace` substitutes every name once, in table order, as a left fold of `str.replace` over the entries; the table is an input value and is not changed |
| `SetDefinitions.ApplyAllNoName` | fstutils.py:213-215 | a string that contains no defined name is returned unchanged |
| `SetDefinitions.ReplaceNameGivesExpansion` | fstutils.py:191-215 | on a resolved table with independent names, replacing a lone set name yields that set's expansion |
| `SetDefinitions.ReplaceNotIdempotent` | fstutils.py:213-215 | a resolved table exists on which replacing twice differs from replacing once |
| `FstPipeline.RemoveEpsilonsAsWritten` | fstutils.py:79-91 | `remove_epsilons` as written deletes the default symbol whatever `epsilon` says, and never lengthens the string |
| `FstPipeline.RemoveEpsilons` | fstutils.py:79-91 | `remove_epsilons` as documented deletes every occurrence of `epsilon`, and never lengthens the string |
| `FstPipeline.RemoveEpsilonsUnchanged` | fstutils.py:79-91 | for a non-empty symbol, the string comes back unchanged exactly when the symbol does not occur in it, and otherwise comes back strictly shorter |
| `FstPipeline.EpsilonArgumentIgnored` | fstutils.py:79-91 | as written, a redefined epsilon symbol is not removed; the documented version removes it |
| `FstPipeline.RemoveEpsilonsDefault` | fstutils.py:79-91 | the documented version with the default symbol agrees with the code as written, whatever `epsilon` is passed to the latter |
| `FstPipeline.RemoveEpsilonsJoins` | fstutils.py:79-91 | deleting one symbol between two strings that lack its first character joins the two strings |
| `FstPipeline.RemoveDefaultEpsilonJoins` | fstutils.py:91 | `remove_epsilons(s + "@_EPSILON_SYMBOL_@" + t) == s + t` when `s` and `t` contain no `@` |
| `FstPipeline.RemoveEpsilonsSinglePass` | fstutils.py:87-91 | one pass of `str.replace` can leave an epsilon symbol in the result, when an occurrence sits between the two halves of another |
| `FstPipeline.Outputs` | fstutils.py:106 | one output per path, in order, each being the path's output with epsilons removed and the weight dropped |
| `FstPipeline.LookupIn` | fstutils.py:103-106 | raises `FstPathNotFound` for the input exactly when the engine yields no path; otherwise returns a non-empty list with one cleaned output per path |
| `FstPipeline.Fst.Lookup` | fstutils.py:94-106 | an empty stack raises; otherwise the lookup goes to the top transducer and fails exactly when the top transducer has no path for the input |
| `FstPipeline.Fst.constructor` | fstutils.py:12-13 | a new object has an empty stack |
| `FstPipeline.Fst.Clear` | fstutils.py:17-20 | the stack is empty afterwards |
| `FstPipeline.Fst.Compose` | fstutils.py:22-32 | on a non-empty stack, pushes the composition of the old top with the argument and keeps every earlier entry, the old top included; an empty stack raises and is left unchanged |
| `FstPipeline.Fst.PushCompiled` | fstutils.py:49-53 | a failed compilation raises `GrammarFileMalformed` and leaves the stack unchanged; a success pushes exactly the compiled transducer |
| `FstPipeline.Fst.CompileLexcFile` | fstutils.py:43-53 | the same, for the lexc compiler's result on the path |
| `FstPipeline.Fst.CompileSfstFile` | fstutils.py:55-65 | the same, for the sfst compiler |
| `FstPipeline.Fst.CompileTwolFile` | fstutils.py:67-77 | the same, for the twol compiler |
| `FstPipeline.Fst.TestFst` | fstutils.py:108-133 | the nested counting loops compute the verdict: the first key without a path raises, an empty table raises, and otherwise the result is true iff the count of unexpected outputs is zero |
| `FstPipeline.Unexpected` | fstutils.py:121-124 | the count of unexpected outputs for a key never exceeds the number of outputs |
| `FstPipeline.UnexpectedZero` | fstutils.py:121-124 | a key contributes no error exactly when every produced output is in its expected list |
| `FstPipeline.CountUnexpected` | fstutils.py:121-124 | the inner loop over one key's outputs counts exactly the outputs missing from the key's expected analyses |
| `FstPipeline.ErrorCountDefined` | fstutils.py:117-120 | the count exists exactly when every key has a path |
| `FstPipeline.ErrorCountZero` | fstutils.py:117-124 | the count is zero exactly when every produced output of every key is expected |
| `FstPipeline.ErrorCountSticks` | fstutils.py:119-120 | once a key has raised, the whole table raises with the same error |
| `FstPipeline.ErrorCountFirstMissing` | fstutils.py:119-120 | a raised lookup error names the first key, in table order, that has no path |
| `FstPipeline.VerdictMeaning` | fstutils.py:117-133 | `test_fst` returns True exactly when the table is non-empty and every produced output of every key is expected; it returns a verdict at all exactly when the table is non-empty and every key has a path |
| `FstPipeline.Insert` | fstutils.py:166 | dictionary assignment: the key then maps to the new value, other keys keep theirs, every existing position keeps its key, and a new key is appended at the end, as in a Python `dict` |
| `FstPipeline.ReadTestLines` | fstutils.py:161-168 | the loop over lines builds the table the line-by-line parse specifies |
| `FstPipeline.ParseLinesSucceeds` | fstutils.py:164-166 | the parse fails exactly when some line has fewer than two tokens |
| `FstPipeline.ParseLinesKeys` | fstutils.py:163-166 | when every line has two tokens, the keys of the table are exactly the first tokens of the lines |
| `FstPipeline.ParseLinesLastWins` | fstutils.py:163-166 | a key maps to the second token of the last line that has it |
| `FstPipeline.ParseLinesSticks` | fstutils.py:164-166 | once a line has raised, the whole file raises with the same error |

## Findings

| source | as written | input that shows it | evidently intended | confidence | as-written member | corrected member |
|---|---|---|---|---|---|---|
| fstutils.py:91 | `remove_epsilons` always deletes `'@_EPSILON_SYMBOL_@'` and ignores its `epsilon` argument | `remove_epsilons("a<e>b", epsilon="<e>")` returns `"a<e>b"` | delete every occurrence of `epsilon`, as the docstring at lines 84-85 says | high; not executed | `FstPipeline.EpsilonArgumentIgnored` (about `RemoveEpsilonsAsWritten`) | `FstPipeline.RemoveEpsilonsJoins` (about `RemoveEpsilons`) |

Everything else in the model (`Outputs`, `Lookup`) uses the corrected
`RemoveEpsilons` with the default symbol. By `RemoveEpsilonsDefault`, that is
the same function as the code as written.

## Left out

- `SetDefinitions.Resolve`: the Python constructor can fail to return on
  cyclic definitions. For `{"A": "xB", "B": "yA"}` the expansion of `B` grows
  by `"xy"` on every scan. Other cyclic tables do return:
  `{"A": "B", "B": "A"}` becomes `{"A": "A", "B": "A"}`. The model gives the
  constructor a budget of `fuel` scans and returns `None` when the budget runs
  out. Its guarantees are therefore partial correctness: they hold whenever it
  returns a table. `ResolveGrowingNames` proves that no budget resolves the
  growing table. The model has no general test that tells which tables make
  the Python loop diverge.
- The `Definitions` object is modelled as its table. No method of the
  class changes the table after construction, so `Resolve` returns the table
  and `Replace` takes it as an argument.
- `SetDefinitions.Resolve`: the constructor stores the caller's dictionary
  itself (`self.defs = definitions`, line 190) and rewrites it in place, so
  the caller sees the resolved table in its own dictionary and any later
  change the caller makes reaches the `Definitions` object. The model takes
  the table as a value and returns a new one, so this aliasing is not
  captured.
- hfst is left out: regex compilation, the lexc/sfst/twol compilers,
  composition, lookup, `extract_paths` and `copy`. These are foreign calls;
  they enter only as functions of an `Engine` value.
- Transducers are values. `compose` copies the top and then composes in place;
  the model has composition return a new value. Object identity and aliasing
  between stack entries are not modelled.
- The stub `regex` function (lines 4-10) is left out because it has no body.
  The class attribute at line 15 is left out because it is not valid Python.
- `sequence_walk` (lines 34-41) only prints.
- `pairs` (lines 136-152) is left out. It formats `extract_paths` output,
  in the engine's order, into a display string.
- `read_test_file` file handling is left out: opening the file and splitting
  each line into tokens (lines 162-165) is I/O. The model takes each line as
  its list of tokens. `strip` after `split` changes nothing.
- `test_fst`'s printed messages and the floating-point `error_percent` are
  left out (lines 123, 126-130). Only the failure of that division on an
  empty table is kept.
- The GrammarFileMalformed message text is reduced to the grammar kind and
  the path.
