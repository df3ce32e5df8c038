# create_test: a verified model of the CPU test-fixture generator

`tools/create_test.py` builds regression fixtures for a RISC-V CPU built as a
Logisim circuit. For each assembly file `tests/.../in/<slug>.s` it does four things:

- It runs Venus twice in trace mode, once for the single-cycle model and once for
  the two-stage pipelined one. It turns each captured trace into a CSV reference
  file, `out/<slug>.ref` or `out/<slug>.piperef`.
- It runs Venus in dump mode and turns the dump into compact instruction words.
- It fills those words, together with a halt constant and the harness import
  path, into the circuit template. The result is `<slug>.circ`.
- For custom tests (those under `tests/integration-custom/in`), it records the
  MD5 digests of the input and the three artifacts. Later runs skip a test
  whose files still match its digests, unless regeneration is forced.

This project models that logic in Dafny and proves its properties.

- The Venus process, MD5, the CSV writer, text encoding and `os.path.relpath`
  are fields of `Host.Env`. Each is a function of its arguments and nothing more.
- The file system is a map from path to bytes, held by the class `Host.FileSystem`.
- The shared hash table is the class `Driver.HashTable`.

Modules:

- `Wrappers`: `Option`, `Result`, `Outcome`.
- `Text`: the Python `str`/`bytes` operations the script uses: `strip`, `lstrip`,
  `split`, `join`, `lower`, `in`, `replace`, and `replace(…, 1)`.
- `Numerals`: `hex(n)` and `str(n)`, and reading them back.
- `Paths`: paths as component sequences; `name`, `suffix`, `stem`, `parent`,
  right-anchored pattern matching, and the order `sorted` uses.
- `Host`: bytes, the collaborators, `TestCreateException` and the file system.
- `Trace`: `generate_output`.
- `Circuit`: `generate_test_circ`.
- `Hashing`: `get_hash` and `check_hash`.
- `Driver`: `create_test` and `create_tests`, as specification functions
  (`RunCreateTest`, `RunBatch`) and as methods on the file system and hash
  table that are proved equal to them.

Both trace runs are given the `--cycles` value from the command line
(tools/create_test.py lines 218-231). A detected count is used in one place
only: the circuit's halt constant is the number of lines the pipelined run
printed (lines 225-234).

The three template replacements run one after another over the whole text
(lines 100-105). Neither earlier marker can overlap the halt marker
`0x4258`, so the halt constant always lands in the circuit. The ROM block
lands there intact when no instruction word holds an `x`. A word holding
`0x4258` would itself be rewritten by the last replacement.

## Model

| member | source | states |
|---|---|---|
| Text.Strip | tools/create_test.py:69 | `str.strip()`: `RStrip` of `LStrip` with the whitespace predicate; its shape is stated by `StripShape` and `StripUnchanged` |
| Text.LStrip | tools/create_test.py:72 | `lstrip`: never longer than its input; every dropped character satisfies the predicate; the result does not start with one |
| Text.LStripSuffix | tools/create_test.py:72 | what `lstrip` keeps is a suffix of its input |
| Text.LStripAfter | tools/create_test.py:72 | a run of stripped characters in front of a part not starting with one leaves exactly that part |
| Text.RStrip | tools/create_test.py:69 | `rstrip`: never longer than its input; every dropped character satisfies the predicate; the result does not end with one |
| Text.RStripPrefix | tools/create_test.py:69 | what `rstrip` keeps is a prefix of its input |
| Text.StripShape | tools/create_test.py:69-71 | a stripped line is empty iff the line is all whitespace; otherwise it neither starts nor ends with whitespace |
| Text.StripUnchanged | tools/create_test.py:69 | a string with no whitespace at either end is its own strip |
| Text.Lower | tools/create_test.py:81 | `str.lower()` character by character; its shape is stated by `LowerShape` and `LowerConcat` |
| Text.LowerConcat | tools/create_test.py:81 | lower-casing distributes over concatenation |
| Text.LowerShape | tools/create_test.py:81 | `lower` keeps the length and maps each character on its own |
| Text.Split | tools/create_test.py:168 | `split` on one character yields at least one piece, and no piece holds the separator |
| Text.SplitAvoids | tools/create_test.py:167-168 | a character absent from the text is absent from every piece |
| Text.JoinSplit | tools/create_test.py:168 | joining the pieces with the separator gives the text back |
| Text.SplitJoin | tools/create_test.py:81 | splitting the join of a non-empty list of separator-free pieces gives the pieces back |
| Text.JoinAvoids | tools/create_test.py:81 | an element in neither the separator nor any part is not in the join |
| Text.Contains | tools/create_test.py:87 | `in` on strings: an occurrence is never longer than the text |
| Text.ContainsAt | tools/create_test.py:87 | an occurrence at a known position is found |
| Text.ContainsWitness | tools/create_test.py:144 | whatever `in` finds is an occurrence at some position |
| Text.ContainsHead | tools/create_test.py:48 | every element of an occurring pattern occurs in the text; the helper by which `HashIgnoresCrlf` sees that bytes without CR hold no CR LF pair |
| Text.ReplaceAll | tools/create_test.py:100-105 | `str.replace(p, q)`: occurrences taken left to right without overlap; stated by `ReplaceAllAbsent`, `ReplaceAllIntroduces`, `ReplaceAllKeeps` and `ReplaceAllDeletes` |
| Text.ReplaceAllAbsent | tools/create_test.py:100-105 | replacing a pattern that does not occur changes nothing |
| Text.ReplaceAllIntroduces | tools/create_test.py:100-105 | when the pattern occurs, its replacement occurs in the result |
| Text.ReplaceAllDeletes | tools/create_test.py:167 | replacing one element by nothing removes it, and every other element still occurs |
| Text.ReplaceAllKeepsPrefix | tools/create_test.py:100-105 | a prefix that no occurrence of the pattern overlaps is still a prefix after the replacement |
| Text.ReplaceAllKeeps | tools/create_test.py:100-105 | an occurrence of a text that no occurrence of the pattern overlaps survives the replacement |
| Text.ApartByMiddle | tools/create_test.py:100-105 | a text with an element the pattern lacks, where the pattern neither ends in what comes before it nor starts with what comes after, is never overlapped by the pattern |
| Text.ApartByEnds | tools/create_test.py:100-105 | a text whose two ends are not in the pattern, and in which the pattern does not occur, is never overlapped by the pattern |
| Text.ReplaceFirst | tools/create_test.py:72 | `str.replace(p, q, 1)`: only the leftmost occurrence; stated by `ReplaceFirstAbsent`, `ReplaceFirstAt` and `ReplaceFirstAtHead` |
| Text.ReplaceFirstAbsent | tools/create_test.py:72 | `replace(p, q, 1)` without an occurrence changes nothing |
| Text.ReplaceFirstAt | tools/create_test.py:72 | `replace(p, q, 1)` splices `q` in at the leftmost occurrence and keeps the rest |
| Text.ReplaceFirstAtHead | tools/create_test.py:72 | a pattern at the very front is the one replaced, and the rest is kept |
| Numerals.Hex | tools/create_test.py:82 | Python `hex(n)` for `n >= 0`: `0x` and the base-16 digits; stated by `HexRoundTrip` |
| Numerals.DigitChar | tools/create_test.py:82 | the digit character has the given value, and is `0` only for zero |
| Numerals.Digits | tools/create_test.py:82 | digits are valid for the base, non-empty, with no leading zero unless the number is zero |
| Numerals.ValueOfDigits | tools/create_test.py:82 | reading the digits back gives the number |
| Numerals.HexRoundTrip | tools/create_test.py:82 | `hex(n)` is `0x` plus lower-case digits without a leading zero, and parses back to `n` |
| Numerals.DecimalRoundTrip | tools/create_test.py:127 | `str(n)` is decimal digits without a leading zero, and reads back as `n` |
| Paths.Suffix | tools/create_test.py:184 | `PurePath.suffix`: from the last `.` of the name, unless that dot is first or last; stated by `AssemblySuffix` |
| Paths.Stem | tools/create_test.py:195 | `PurePath.stem`: the name without its suffix; stated by `AssemblySuffix` |
| Paths.MatchesAsmUnder | tools/create_test.py:188-191 | `match("<dirs>/*.s")`: the name matches `*.s` and the parents, from the right, are the given directories; stated by `MatchesShorterPattern` |
| Paths.RFind | tools/create_test.py:184 | `rfind` gives the last occurrence, or -1 when there is none |
| Paths.AssemblySuffix | tools/create_test.py:184 | the suffix is `.s` iff the name ends in `.s` after at least one more character; the stem is then the name minus `.s` |
| Paths.MatchesShorterPattern | tools/create_test.py:188-191 | a path under `tests/integration-custom/in` is also under `in` |
| Paths.StrLessIrreflexive | tools/create_test.py:249 | no string is below itself |
| Paths.StrLessTransitive | tools/create_test.py:249 | string order is transitive |
| Paths.StrLessTotal | tools/create_test.py:249 | distinct strings are ordered one way |
| Paths.PathLessIrreflexive | tools/create_test.py:249 | no path is below itself |
| Paths.PathLessTransitive | tools/create_test.py:249 | path order is transitive |
| Paths.PathLessTotal | tools/create_test.py:249 | distinct paths are ordered one way |
| Paths.PathOrderTotal | tools/create_test.py:249 | the path order is total and antisymmetric |
| Paths.Insert | tools/create_test.py:249 | insertion adds exactly one copy of the path |
| Paths.InsertSorted | tools/create_test.py:249 | insertion keeps a sorted sequence sorted |
| Paths.Sort | tools/create_test.py:249 | `sorted` returns an ascending permutation of its input |
| Paths.SortedPermutationUnique | tools/create_test.py:249 | two ascending permutations of the same paths are equal |
| Host.FileSystem.Write | tools/create_test.py:106-107 | writing a file sets exactly that file's contents and no other |
| Trace.TraceCommand | tools/create_test.py:114-129 | the trace command line; stated by `TraceCommandShape` |
| Trace.Errored | tools/create_test.py:139-146 | a run failed when its exit code is non-zero or a line holds `[ERROR]`; `ScanForError` is the loop proved to compute it |
| Trace.TraceCommandShape | tools/create_test.py:114-129 | fixed ten-argument prefix; `--traceTotalNumCommands` iff a cycle count is given, followed by `str(n + 1)`; `--traceTwoStage` iff pipelined |
| Trace.ScanForError | tools/create_test.py:139-146 | the run failed iff the exit code is non-zero or some line contains `[ERROR]` |
| Trace.NormalizeRow | tools/create_test.py:167-168 | a trace line stripped, its spaces removed, split on commas; stated by `NormalizeRowShape` |
| Trace.ReferenceRows | tools/create_test.py:161-170 | the header row followed by one normalised row per trace line; stated by `ReferenceRowsShape` |
| Trace.NormalizeRowShape | tools/create_test.py:167-168 | a row has at least one field; no field holds a space or comma; it re-joins to the stripped, space-free line |
| Trace.ReferenceRowsShape | tools/create_test.py:161-170 | the header and then exactly one row per trace line, with no field holding a space, each re-joining to its line stripped and with its spaces removed |
| Trace.BuildReferenceRows | tools/create_test.py:161-170 | the loop writes the header and one normalised row per line, and counts one cycle per line |
| Trace.GenerateOutput | tools/create_test.py:111-180 | on a failed run it raises and writes nothing; otherwise it writes exactly the reference file and returns the line count |
| Circuit.InstWords | tools/create_test.py:66-75 | the words of a dump, one per non-blank line; stated by `InstWordsOfLine`, `InstWordsAppend` and `InstWordsCompact`, and computed by `CollectInstWords` |
| Circuit.NormalizeWord | tools/create_test.py:72-74 | a word is non-empty and has no leading zero unless it is `0` |
| Circuit.CollectInstWords | tools/create_test.py:66-75 | the loop appends one word per non-blank line, in order |
| Circuit.InstWordsOfLine | tools/create_test.py:69-71 | a blank line contributes nothing; any other line contributes its word |
| Circuit.InstWordsAppend | tools/create_test.py:66-75 | the words of two consecutive parts of a dump are the words of each part, in order |
| Circuit.InstWordsCompact | tools/create_test.py:66-75 | every word is compact, and there are never more words than lines |
| Circuit.NormalizeWordExamples | tools/create_test.py:72-74 | `0x00001234` becomes `1234`; `0x00000000` becomes `0` |
| Circuit.NormalizeHexWord | tools/create_test.py:72-74 | `0x`, zero padding, then digits that neither start with a zero nor end in whitespace, becomes those digits, or `0` when there are none |
| Circuit.NormalizeWordInnerPrefix | tools/create_test.py:72 | the first `0x` is removed wherever it stands: `120x34` becomes `1234` |
| Circuit.NormalizeWordWithoutPrefix | tools/create_test.py:72-74 | without any `0x`, a line loses the whitespace at its ends and its leading zeros, and is `0` if nothing is left |
| Circuit.RomContents | tools/create_test.py:81 | the ROM block: header, lower-cased words joined by spaces, newline; stated by `RomContentsLists` and `RomContentsAvoidsX` |
| Circuit.LowerAll | tools/create_test.py:81 | lower-cases each word, keeping the count |
| Circuit.LowerJoin | tools/create_test.py:81 | lower-casing a join equals joining the lower-cased words |
| Circuit.RomContentsLists | tools/create_test.py:81 | for a non-empty list of words without spaces, the ROM block is the header, then a data line that splits back into the lower-cased words, then a newline |
| Circuit.RomContentsAvoidsX | tools/create_test.py:81 | words without an `x` of either case give a ROM block without an `x` |
| Circuit.Render | tools/create_test.py:87-105 | the three marker checks, then the three replacements in order; stated by `RenderFailsFast`, `RenderPlacesHalt` and `RenderPlacesRom` |
| Circuit.RenderFailsFast | tools/create_test.py:87-105 | substitution fails iff a marker is missing, naming the first missing one in check order |
| Circuit.HaltMarkerApart | tools/create_test.py:100-104 | no occurrence of the harness import or of the ROM marker overlaps an occurrence of the halt marker |
| Circuit.RomMarkerApart | tools/create_test.py:100-103 | no occurrence of the harness import overlaps an occurrence of the ROM marker |
| Circuit.RenderPlacesHalt | tools/create_test.py:82-105 | with every marker present, rendering succeeds and the result holds the halt constant, which reads back as the cycle count |
| Circuit.RenderPlacesRom | tools/create_test.py:81-105 | with every marker present and no word holding an `x`, the result holds the ROM block of the words |
| Circuit.CircuitText | tools/create_test.py:57-105 | the substituted circuit for a test, from the Venus dump and the given cycle count |
| Circuit.CircuitTextPlaces | tools/create_test.py:57-105 | with every marker in the template, the circuit holds the halt constant and, for `x`-free words, the ROM block of the dump |
| Circuit.GenerateTestCirc | tools/create_test.py:57-107 | with a marker missing it raises and writes nothing; otherwise it writes exactly the substituted circuit |
| Hashing.NormalizeLineEndings | tools/create_test.py:48 | every CR LF pair, scanning left to right, becomes LF; stated by `CrlfRoundTrip` and `NormalizeSinglePass` |
| Hashing.GetHash | tools/create_test.py:43-49 | no digest for a path that is not a file, else the digest of the normalised contents; stated by `CheckHashOfFile` and `HashIgnoresCrlf` |
| Hashing.CheckHash | tools/create_test.py:52-54 | the stored digest is truthy and equals the current one; stated by `CheckHashOfFile` |
| Hashing.CheckHashOfFile | tools/create_test.py:43-54 | a missing file has no digest; a stored digest matches iff the file exists and the digest is non-empty and equals the digest of the normalised contents |
| Hashing.CrlfRoundTrip | tools/create_test.py:48 | for bytes without CR, converting LF to CR LF and normalising back restores them |
| Hashing.HashIgnoresCrlf | tools/create_test.py:43-49 | for contents without CR, a file's digest is the same whether written with LF or CR LF endings |
| Hashing.NormalizeSinglePass | tools/create_test.py:48 | normalisation is one left-to-right pass: CR CR LF becomes CR LF, not LF |
| Driver.PathsFor | tools/create_test.py:195-201 | the slug and the three artifact paths of an input; stated by `PathsForAccepted` |
| Driver.PathsForAccepted | tools/create_test.py:195-201 | the slug is the name without `.s`; the input, `.circ`, `.ref` and `.piperef` are four distinct files; both reference files are in `out` beside the circuit |
| Driver.UpToDate | tools/create_test.py:203-210 | the slug has a record and all four stored digests pass `check_hash`; stated by `SkipRule` and `DeletedArtifactRegenerates` |
| Driver.RunCreateTest | tools/create_test.py:183-245 | one call of `create_test`: reject, skip, or regenerate; stated by the single-call lemmas below |
| Driver.Regenerate | tools/create_test.py:217-245 | the regenerating part of `create_test` always ends in a failure or a generated test |
| Driver.HashTable.Set | tools/create_test.py:240-245 | sets exactly one entry |
| Driver.CreateTest | tools/create_test.py:183-245 | the in-place run gives the outcome, files and table of `RunCreateTest` |
| Driver.RejectRule | tools/create_test.py:184-190 | rejection happens iff the input is not a `.s` file or is not in an `in` directory; a rejected or skipped input changes nothing |
| Driver.SkipRule | tools/create_test.py:203-212 | skipped iff accepted, not forced, custom, and all four digests are recorded, truthy and matching |
| Driver.ForceRegenerates | tools/create_test.py:203 | an accepted input that is forced or non-custom is never skipped; it fails or is generated |
| Driver.DeletedArtifactRegenerates | tools/create_test.py:203-212 | a missing artifact or missing digest means the test is not skipped |
| Driver.FilesAfterCall | tools/create_test.py:217-234 | the files after a call are unchanged, or have the `.ref`, or the `.ref` and `.piperef`, or all three artifacts written |
| Driver.WritesOnlyArtifacts | tools/create_test.py:199-234 | no file but the test's three artifacts is written or created |
| Driver.TableUpdateRule | tools/create_test.py:239-245 | the table changes only for a generated custom test, and then only at its slug, with all four digests present |
| Driver.FailureStages | tools/create_test.py:217-237 | a failure keeps the table and the circuit; a failed first run writes nothing; a failed second run leaves only the new `.ref` |
| Driver.GeneratedArtifacts | tools/create_test.py:217-245 | after success `.ref` and `.piperef` hold the two traces' rows, the circuit is the template rendered with the pipelined line count, exactly the three artifacts are added, and the table gets the new record for a custom test |
| Driver.GeneratedCircuit | tools/create_test.py:225-234 | the generated circuit holds the halt constant, which reads back as the pipelined line count, and, when no dumped word holds an `x`, the dump's ROM block |
| Driver.RerunSkips | tools/create_test.py:203-245 | right after a custom test is generated, an unforced rerun skips it and changes nothing |
| Driver.RunBatch | tools/create_test.py:259-260 | the inputs one after the other, each seeing what the previous ones left; stated by the batch lemmas below and computed by `CreateTests` |
| Driver.CreateTests | tools/create_test.py:248-264 | the batch runs the inputs in sorted order over one table, and returns the table for saving |
| Driver.BatchIgnoresInputOrder | tools/create_test.py:249 | the batch result does not depend on the order the inputs are given in |
| Driver.BatchKeepsOtherEntries | tools/create_test.py:259-260 | entries for slugs with no custom input in the batch are unchanged |
| Driver.BatchWritesOnlyArtifacts | tools/create_test.py:259-260 | a file that is no input's artifact is left unchanged by the batch |
| Driver.RunCreateTestLocal | tools/create_test.py:183-245 | a call reads only its input, its three artifacts and its slug's table entry: from two states that agree on those it has the same outcome and leaves states that still agree on them |
| Driver.RegenerateLocal | tools/create_test.py:214-245 | the same for the regenerating part of a call |
| Driver.WriteKeepsAgreement | tools/create_test.py:217-234 | writing the same contents to the same path keeps two file sets in agreement on a test's four files |
| Driver.RecordForAgrees | tools/create_test.py:239-245 | the digests recorded for a test depend only on its four files |
| Driver.UpToDateAgrees | tools/create_test.py:203-212 | whether a test counts as unchanged depends only on its four files and its table entry |
| Driver.OutsideKept | tools/create_test.py:217-234 | a change confined to another test's artifacts leaves the four files of a test none of whose files is among them |
| Driver.OtherCallKeeps | tools/create_test.py:183-245 | a call for an input that does not interfere with `p` (no shared artifact, no shared custom slug) keeps `p`'s input, artifacts and table entry |
| Driver.OtherCallKeepsFiles | tools/create_test.py:217-234 | such a call keeps `p`'s input and artifacts |
| Driver.OtherCallKeepsEntry | tools/create_test.py:239-245 | a call keeps the table entry of every slug other than its own custom one |
| Driver.OthersKeep | tools/create_test.py:259-260 | a run of inputs none of which interferes with `p` keeps `p`'s input, artifacts and table entry |
| Driver.AgreeAtTransitive | tools/create_test.py:259-260 | agreement on a test's files and entry is transitive |
| Driver.BatchAppend | tools/create_test.py:259-260 | running a batch in two parts, one after the other, is running it whole |
| Driver.RunThenOthers | tools/create_test.py:259-260 | from a state that agrees with `st` on `p`, running `p` and then inputs that do not interfere with it leaves `p` as running it alone on `st` |
| Driver.BatchIsolatesInput | tools/create_test.py:259-260 | failure isolation: an input that none of the inputs before or after it interferes with ends the batch with the same input, artifacts and table entry as if run alone, whatever became of the others |

## Left out

- Running Java and Venus, `subprocess.Popen`, and the temporary files with their `unlink`. A Venus run is the function `Env.venus` from the command line to an exit code and the captured lines.
- The model assumes Venus's output depends only on the command line.
- Reading a file in text mode and splitting it into lines is not modelled. The captured lines are given as a sequence.
- Decoding Venus's output is not modelled. The `encoding` and `errors` arguments go to `Popen` together with a file as stdout (lines 62-64, 135-137), so they have no effect. The file is read back in text mode with the locale's encoding and strict error handling (lines 67, 142, 161).
- Exceptions other than `TestCreateException` are not modelled, and the model has none of them. Examples are a byte the locale cannot decode, a missing `harnesses/run.circ` (line 85), an `out` path that is a plain file (line 214), and a hash record that is not a JSON object (line 53). Only `TestCreateException` is caught (line 235), so any of these stops the batch before `.hashes.json` is written (lines 262-264).
- MD5 is the uninterpreted function `Env.md5` over the normalised bytes.
- `RerunSkips` requires that no digest is the empty string, which holds for MD5 hex digests.
- CSV quoting and writing are the function `Env.csv` from rows to bytes.
- Writing text in `"w"` mode is the function `Env.encode`.
- `os.path.relpath` is the function `Env.harnessRelPath` of the circuit's directory.
- The text of `harnesses/run.circ` is the field `Env.template`, and it is fixed for the whole batch. The code reads that file again in every call (lines 33, 85). An input whose circuit path is `harnesses/run.circ` itself, `harnesses/in/run.s` (lines 196, 199), overwrites the template, and every later input of the batch then renders the overwritten file. This usually lacks a marker, so those inputs fail. The model does not capture this.
- Driver.RunBatch: holds the template fixed, so it describes only batches in which no input's circuit is `harnesses/run.circ`.
- Driver.CreateTests: proved equal to `RunBatch`, so it covers the same batches only.
- Driver.BatchIsolatesInput: holds the template fixed, so it does not cover batches with an input whose circuit is `harnesses/run.circ`. In such a batch, an input sorted after that one renders the overwritten template and can fail where it succeeds alone, although it satisfies `ApartFromAll`.
- `Path.resolve()` and symbolic links are not modelled. The code resolves the path only for the two `match` calls (lines 188, 191). `is_file`, `suffix`, `stem` and `parent.parent` (lines 184, 195-196) use the path as given. The model has one path for all of these, so it describes inputs given as resolved paths. It cannot express a relative input such as `add.s` given from inside an `in` directory. There `parent.parent` is `.`, so the code writes `in/add.circ` and `in/out/add.ref`.
- `Path.match` is modelled only for the two patterns the script uses: directories followed by `*.s`, matched against path components from the right.
- `fnmatch` case folding is not modelled. The match is case-sensitive, as on POSIX.
- `mkdir` of the `out` and `tools` directories is not modelled. Directories are not part of the file map.
- Loading `.hashes.json` (lines 252-257) is reduced to the `stored` argument of `CreateTests`. `None` stands for a missing or unreadable file; the table then starts empty.
- JSON serialisation of the saved table (lines 262-264) is not modelled. The method returns the table that would be saved.
- The JSON layout of a record is not modelled. A key that is missing or holds `null` is `None`.
- `argparse` and the `__main__` block (lines 267-296) are not modelled, including the default glob of the custom input directory.
- All `print` output is not modelled, including the dump of stdout on a Venus error.
- `Text.Lower` lower-cases ASCII letters only. Instruction words are hexadecimal, so nothing else occurs in them.
- `Text.IsSpace` uses Python's whitespace set for code points that fit in a `char`.
- A Venus dump whose exit code is non-zero is used as it is, as in the code: `CircuitText` does not look at `Run.exitCode`.
