/** `create_test` and `create_tests`: which inputs are accepted, when an
    unchanged custom test is skipped, the order in which the two reference
    files and the circuit are written, and how the hash table is kept. */
module Driver {
  import opened Wrappers
  import opened Text
  import opened Numerals
  import opened Paths
  import opened Host
  import opened Trace
  import opened Circuit
  import opened Hashing

  /** The directories, innermost last, that hold the custom tests' inputs. */
  const CustomDirs: seq<string> := ["tests", "integration-custom", "in"]

  /** The input is a regular file whose suffix is `.s`. */
  predicate IsAssemblyFile(files: map<Path, Bytes>, p: Path) {
    p in files && Suffix(Name(p)) == ".s"
  }

  /** The input's name ends in `.s` and its directory is named `in`. */
  predicate InInputDir(p: Path) {
    MatchesAsmUnder(p, ["in"])
  }

  /** As `InInputDir`, with the directories `tests`, `integration-custom`, `in` above the input. */
  predicate IsCustomTest(p: Path) {
    MatchesAsmUnder(p, CustomDirs)
  }

  /** The slug of a test and the three artifacts generated for it. */
  datatype TestPaths = TestPaths(slug: string, circ: Path, ref: Path, piperef: Path)

  /** The slug is the input's stem; the circuit goes two levels up, next to
      the `in` directory, and the reference files into `out` beside it. */
  function PathsFor(p: Path): TestPaths {
    var slug := Stem(Name(p));
    var testDir := Parent(Parent(p));
    TestPaths(slug, testDir + [slug + ".circ"], testDir + ["out", slug + ".ref"], testDir + ["out", slug + ".piperef"])
  }

  /** For an accepted input, the slug is its name without `.s`, and the input
      and its three artifacts are four different files. */
  lemma PathsForAccepted(p: Path)
    requires Suffix(Name(p)) == ".s" && InInputDir(p)
    ensures var t := PathsFor(p);
      && t.slug + ".s" == Name(p)
      && t.circ != p && t.ref != p && t.piperef != p
      && t.circ != t.ref && t.circ != t.piperef && t.ref != t.piperef
      && Parent(t.ref) == Parent(t.piperef) == Parent(t.circ) + ["out"]
  {
    AssemblySuffix(Name(p));
    var t := PathsFor(p);
    var testDir := Parent(Parent(p));
    assert |testDir| == |p| - 2;
    assert p[|p| - 2] == "in";
    assert t.ref[|p| - 2] == "out";
    assert t.ref[|p| - 1] != t.piperef[|p| - 1] by {
      assert |t.ref[|p| - 1]| != |t.piperef[|p| - 1]|;
    }
    assert Parent(t.ref) == testDir + ["out"];
  }

  /** What the generator keeps between inputs: the files on disk and the hash table. */
  datatype State = State(files: map<Path, Bytes>, hashes: map<string, HashRecord>)

  /** What became of one input. */
  datatype TestOutcome =
    | NotAssembly              // not a file, or not a `.s` file
    | NotInInputDir            // not under an `in` directory
    | NoChanges                // a custom test whose input and artifacts match their digests
    | Failed(error: TestCreateError)
    | Generated(cycles: nat)   // the number of cycles the pipelined trace ran

  datatype Step = Step(outcome: TestOutcome, state: State)

  /** Every recorded digest of the test is truthy and matches the file on disk. */
  predicate UpToDate(st: State, md5: Bytes -> string, p: Path, t: TestPaths) {
    && t.slug in st.hashes
    && CheckHash(st.hashes[t.slug].input, GetHash(st.files, p, md5))
    && CheckHash(st.hashes[t.slug].circ, GetHash(st.files, t.circ, md5))
    && CheckHash(st.hashes[t.slug].ref, GetHash(st.files, t.ref, md5))
    && CheckHash(st.hashes[t.slug].piperef, GetHash(st.files, t.piperef, md5))
  }

  /** The digests recorded for a freshly generated test. */
  function RecordFor(files: map<Path, Bytes>, md5: Bytes -> string, p: Path, t: TestPaths): HashRecord {
    HashRecord(GetHash(files, p, md5), GetHash(files, t.circ, md5), GetHash(files, t.ref, md5), GetHash(files, t.piperef, md5))
  }

  /** One call of `create_test`: rejection, the skip of an unchanged custom
      test, or regeneration. */
  function RunCreateTest(env: Env, st: State, p: Path, numCycles: int, force: bool): Step {
    if !IsAssemblyFile(st.files, p) then Step(NotAssembly, st)
    else if !InInputDir(p) then Step(NotInInputDir, st)
    else if !force && IsCustomTest(p) && UpToDate(st, env.md5, p, PathsFor(p)) then Step(NoChanges, st)
    else Regenerate(env, st, p, numCycles)
  }

  /** The regenerating part of `create_test`. Both trace runs get the cycle
      bound given on the command line; the circuit's halt constant is the
      number of lines the pipelined run printed. A failure keeps whatever was
      written before it. */
  function Regenerate(env: Env, st: State, p: Path, numCycles: int): (s: Step)
    ensures s.outcome.Failed? || s.outcome.Generated?
  {
    var t := PathsFor(p);
    var run1 := TraceRun(env, p, numCycles, false);
    if Errored(run1) then Step(Failed(VenusErrored(PathString(p))), st)
    else
      var files1 := st.files[t.ref := env.csv(ReferenceRows(run1.lines))];
      var run2 := TraceRun(env, p, numCycles, true);
      if Errored(run2) then Step(Failed(VenusErrored(PathString(p))), State(files1, st.hashes))
      else
        var files2 := files1[t.piperef := env.csv(ReferenceRows(run2.lines))];
        var cycles := |run2.lines|;
        var text := CircuitText(env, p, t.circ, cycles);
        if text.Failure? then Step(Failed(text.error), State(files2, st.hashes))
        else
          var files3 := files2[t.circ := env.encode(text.value)];
          var hashes := if IsCustomTest(p) then st.hashes[t.slug := RecordFor(files3, env.md5, p, t)] else st.hashes;
          Step(Generated(cycles), State(files3, hashes))
  }

  /** The hash table `create_tests` works on. */
  class HashTable {
    var entries: map<string, HashRecord>

    constructor (initial: map<string, HashRecord>)
      ensures entries == initial
    {
      entries := initial;
    }

    /** `hashes[slug] = record`. */
    method Set(slug: string, record: HashRecord)
      modifies this
      ensures entries == old(entries)[slug := record]
    {
      entries := entries[slug := record];
    }
  }

  /** `create_test`, on the file system and the hash table in place. */
  method CreateTest(fs: FileSystem, table: HashTable, env: Env, p: Path, numCycles: int, force: bool)
    returns (outcome: TestOutcome)
    modifies fs, table
    ensures var s := RunCreateTest(env, State(old(fs.files), old(table.entries)), p, numCycles, force);
      outcome == s.outcome && fs.files == s.state.files && table.entries == s.state.hashes
  {
    if p !in fs.files || Suffix(Name(p)) != ".s" {
      return NotAssembly;
    }
    if !InInputDir(p) {
      return NotInInputDir;
    }
    var custom := IsCustomTest(p);
    var t := PathsFor(p);
    if !force && custom && t.slug in table.entries {
      var h := table.entries[t.slug];
      if && CheckHash(h.input, GetHash(fs.files, p, env.md5))
         && CheckHash(h.circ, GetHash(fs.files, t.circ, env.md5))
         && CheckHash(h.ref, GetHash(fs.files, t.ref, env.md5))
         && CheckHash(h.piperef, GetHash(fs.files, t.piperef, env.md5))
      {
        return NoChanges;
      }
    }
    var single := GenerateOutput(fs, env, p, t.ref, numCycles, false);
    if single.Failure? {
      return Failed(single.error);
    }
    var pipelined := GenerateOutput(fs, env, p, t.piperef, numCycles, true);
    if pipelined.Failure? {
      return Failed(pipelined.error);
    }
    var detected := pipelined.value;
    var circ := GenerateTestCirc(fs, env, p, t.circ, detected);
    if circ.Fail? {
      return Failed(circ.error);
    }
    if custom {
      table.Set(t.slug, RecordFor(fs.files, env.md5, p, t));
    }
    return Generated(detected);
  }

  // ---------------------------------------------------------------------
  // Properties of one call
  // ---------------------------------------------------------------------

  /** The input is rejected exactly when it is not an assembly file or not in
      an `in` directory, and a rejected input changes nothing. */
  lemma RejectRule(env: Env, st: State, p: Path, numCycles: int, force: bool)
    ensures var s := RunCreateTest(env, st, p, numCycles, force);
      && (s.outcome == NotAssembly <==> !IsAssemblyFile(st.files, p))
      && (s.outcome == NotInInputDir <==> IsAssemblyFile(st.files, p) && !InInputDir(p))
      && (s.outcome in {NotAssembly, NotInInputDir, NoChanges} ==> s.state == st)
  {
  }

  /** A test is skipped exactly when it is an accepted custom test, regeneration
      is not forced, and all four digests are recorded and match. */
  lemma SkipRule(env: Env, st: State, p: Path, numCycles: int, force: bool)
    ensures RunCreateTest(env, st, p, numCycles, force).outcome == NoChanges
      <==> IsAssemblyFile(st.files, p) && InInputDir(p) && !force && IsCustomTest(p) && UpToDate(st, env.md5, p, PathsFor(p))
  {
  }

  /** A forced run, or a test outside the custom directory, is never skipped:
      an accepted input then either fails or is generated. */
  lemma ForceRegenerates(env: Env, st: State, p: Path, numCycles: int, force: bool)
    requires IsAssemblyFile(st.files, p) && InInputDir(p)
    requires force || !IsCustomTest(p)
    ensures RunCreateTest(env, st, p, numCycles, force).outcome.Failed?
         || RunCreateTest(env, st, p, numCycles, force).outcome.Generated?
  {
  }

  /** A test with a missing artifact, or with no truthy digest for one, is
      never skipped. */
  lemma DeletedArtifactRegenerates(env: Env, st: State, p: Path, numCycles: int, force: bool)
    requires var t := PathsFor(p);
      || t.circ !in st.files || t.ref !in st.files || t.piperef !in st.files
      || t.slug !in st.hashes
      || st.hashes[t.slug].input.None? || st.hashes[t.slug].circ.None?
      || st.hashes[t.slug].ref.None? || st.hashes[t.slug].piperef.None?
    ensures RunCreateTest(env, st, p, numCycles, force).outcome != NoChanges
  {
    var t := PathsFor(p);
    if t.slug in st.hashes {
      var h := st.hashes[t.slug];
      CheckHashOfFile(st.files, t.circ, env.md5, h.circ);
      CheckHashOfFile(st.files, t.ref, env.md5, h.ref);
      CheckHashOfFile(st.files, t.piperef, env.md5, h.piperef);
    }
  }

  /** The files after a call, stage by stage: unchanged, or the `.ref`
      written, or the `.ref` and the `.piperef`, or all three artifacts. */
  lemma FilesAfterCall(env: Env, st: State, p: Path, numCycles: int, force: bool)
    ensures var s := RunCreateTest(env, st, p, numCycles, force);
      var t := PathsFor(p);
      var files1 := st.files[t.ref := env.csv(ReferenceRows(TraceRun(env, p, numCycles, false).lines))];
      var files2 := files1[t.piperef := env.csv(ReferenceRows(TraceRun(env, p, numCycles, true).lines))];
      || s.state.files == st.files
      || s.state.files == files1
      || s.state.files == files2
      || (t.circ in s.state.files && s.state.files == files2[t.circ := s.state.files[t.circ]])
  {
  }

  /** A call writes no file but the test's three artifacts: every other file
      keeps its contents, and no other file appears. */
  lemma WritesOnlyArtifacts(env: Env, st: State, p: Path, numCycles: int, force: bool)
    ensures var s := RunCreateTest(env, st, p, numCycles, force);
      var t := PathsFor(p);
      && s.state.files.Keys <= st.files.Keys + {t.circ, t.ref, t.piperef}
      && forall q :: q in st.files && q != t.circ && q != t.ref && q != t.piperef
           ==> q in s.state.files && s.state.files[q] == st.files[q]
  {
    FilesAfterCall(env, st, p, numCycles, force);
  }

  /** The table changes only when a custom test is generated, and then only
      the test's own entry, which records a digest for all four files. */
  lemma TableUpdateRule(env: Env, st: State, p: Path, numCycles: int, force: bool)
    ensures var s := RunCreateTest(env, st, p, numCycles, force);
      var t := PathsFor(p);
      && (s.outcome.Generated? && IsCustomTest(p) ==>
            s.state.hashes == st.hashes[t.slug := RecordFor(s.state.files, env.md5, p, t)]
            && s.state.hashes[t.slug].input.Some? && s.state.hashes[t.slug].circ.Some?
            && s.state.hashes[t.slug].ref.Some? && s.state.hashes[t.slug].piperef.Some?)
      && (!(s.outcome.Generated? && IsCustomTest(p)) ==> s.state.hashes == st.hashes)
  {
    var s := RunCreateTest(env, st, p, numCycles, force);
    if s.outcome.Generated? {
      GeneratedArtifacts(env, st, p, numCycles, force);
    } else if s.outcome.Failed? {
      FailureStages(env, st, p, numCycles, force);
    } else {
      RejectRule(env, st, p, numCycles, force);
    }
  }

  /** A failure leaves the hash table and the circuit alone; a failed first
      trace run writes nothing at all, a failed second one only the `.ref`. */
  lemma FailureStages(env: Env, st: State, p: Path, numCycles: int, force: bool)
    requires RunCreateTest(env, st, p, numCycles, force).outcome.Failed?
    ensures var s := RunCreateTest(env, st, p, numCycles, force);
      var t := PathsFor(p);
      && s.state.hashes == st.hashes
      && (t.circ in s.state.files <==> t.circ in st.files)
      && (t.circ in st.files ==> s.state.files[t.circ] == st.files[t.circ])
      && (Errored(TraceRun(env, p, numCycles, false)) ==> s.state == st)
      && (s.outcome.error.VenusErrored? && !Errored(TraceRun(env, p, numCycles, false)) ==>
            s.state.files == st.files[t.ref := env.csv(ReferenceRows(TraceRun(env, p, numCycles, false).lines))])
  {
    PathsForAccepted(p);
    var s := RunCreateTest(env, st, p, numCycles, force);
    var t := PathsFor(p);
    assert s == Regenerate(env, st, p, numCycles);
    var run1 := TraceRun(env, p, numCycles, false);
    if !Errored(run1) {
      var files1 := st.files[t.ref := env.csv(ReferenceRows(run1.lines))];
      var run2 := TraceRun(env, p, numCycles, true);
      if Errored(run2) {
        assert s.state == State(files1, st.hashes);
      } else {
        var files2 := files1[t.piperef := env.csv(ReferenceRows(run2.lines))];
        assert CircuitText(env, p, t.circ, |run2.lines|).Failure?;
        assert s.state == State(files2, st.hashes) && !s.outcome.error.VenusErrored?;
      }
    }
  }

  /** After a successful call the `.ref` and `.piperef` files hold the rows of
      the single-cycle and the pipelined trace, and the circuit's halt
      constant is the number of lines of the pipelined trace, whatever cycle
      bound was given. */
  lemma GeneratedArtifacts(env: Env, st: State, p: Path, numCycles: int, force: bool)
    requires RunCreateTest(env, st, p, numCycles, force).outcome.Generated?
    ensures var s := RunCreateTest(env, st, p, numCycles, force);
      var t := PathsFor(p);
      var run1 := TraceRun(env, p, numCycles, false);
      var run2 := TraceRun(env, p, numCycles, true);
      && !Errored(run1) && !Errored(run2)
      && s.outcome.cycles == |run2.lines|
      && s.state.files[t.ref] == env.csv(ReferenceRows(run1.lines))
      && s.state.files[t.piperef] == env.csv(ReferenceRows(run2.lines))
      && HasAllMarkers(env.template)
      && s.state.files[t.circ] == env.encode(Render(env.template, env.harnessRelPath(Parent(t.circ)),
           InstWords(env.venus(DumpCommand(env.venusJar, PathString(p))).lines), |run2.lines|, PathString(t.circ)).value)
      && p in s.state.files && s.state.files[p] == st.files[p]
      && s.state.files.Keys == st.files.Keys + {t.circ, t.ref, t.piperef}
      && s.state.hashes == if IsCustomTest(p) then st.hashes[t.slug := RecordFor(s.state.files, env.md5, p, t)] else st.hashes
  {
    PathsForAccepted(p);
    var t := PathsFor(p);
    var run2 := TraceRun(env, p, numCycles, true);
    RenderFailsFast(env.template, env.harnessRelPath(Parent(t.circ)),
      InstWords(env.venus(DumpCommand(env.venusJar, PathString(p))).lines), |run2.lines|, PathString(t.circ));
  }

  /** The circuit of a generated test holds the halt constant for the
      pipelined run's length, which reads back as that length, and, when no
      dumped word holds an `x`, the ROM block of the dumped words. */
  lemma GeneratedCircuit(env: Env, st: State, p: Path, numCycles: int, force: bool)
    requires RunCreateTest(env, st, p, numCycles, force).outcome.Generated?
    ensures var s := RunCreateTest(env, st, p, numCycles, force);
      var t := PathsFor(p);
      var n := s.outcome.cycles;
      var insts := InstWords(env.venus(DumpCommand(env.venusJar, PathString(p))).lines);
      var text := CircuitText(env, p, t.circ, n);
      && text.Success? && t.circ in s.state.files && s.state.files[t.circ] == env.encode(text.value)
      && Contains(text.value, HaltConstant(n)) && ParseHex(HaltConstant(n)) == Some(n)
      && (WordsWithoutX(insts) ==> Contains(text.value, RomContents(insts)))
  {
    GeneratedArtifacts(env, st, p, numCycles, force);
    var s := RunCreateTest(env, st, p, numCycles, force);
    CircuitTextPlaces(env, p, PathsFor(p).circ, s.outcome.cycles);
  }

  /** Generating a custom test and then running again without forcing skips
      it and changes nothing, provided no digest is the empty string. */
  lemma RerunSkips(env: Env, st: State, p: Path, numCycles: int, force: bool, numCycles': int)
    requires forall b :: env.md5(b) != ""
    requires RunCreateTest(env, st, p, numCycles, force).outcome.Generated?
    requires IsCustomTest(p)
    ensures var s := RunCreateTest(env, st, p, numCycles, force);
      RunCreateTest(env, s.state, p, numCycles', false) == Step(NoChanges, s.state)
  {
    PathsForAccepted(p);
    GeneratedArtifacts(env, st, p, numCycles, force);
    var s := RunCreateTest(env, st, p, numCycles, force);
    var t := PathsFor(p);
    var h := s.state.hashes[t.slug];
    assert h == RecordFor(s.state.files, env.md5, p, t);
    assert IsAssemblyFile(s.state.files, p);
    assert UpToDate(s.state, env.md5, p, t) by {
      assert h.input.value != "" && h.circ.value != "" && h.ref.value != "" && h.piperef.value != "";
    }
  }

  /** `q` is a file in `a` exactly when it is in `b`, with the same contents. */
  predicate SameFile(a: map<Path, Bytes>, b: map<Path, Bytes>, q: Path) {
    (q in a <==> q in b) && (q in a ==> a[q] == b[q])
  }

  /** Two file maps agree on the input `p` and its three artifacts. */
  predicate SameTestFiles(a: map<Path, Bytes>, b: map<Path, Bytes>, p: Path) {
    var t := PathsFor(p);
    SameFile(a, b, p) && SameFile(a, b, t.circ) && SameFile(a, b, t.ref) && SameFile(a, b, t.piperef)
  }

  /** Two states agree on everything a call for `p` reads: the input, its
      three artifacts, and the table entry of its slug. */
  predicate AgreeAt(a: State, b: State, p: Path) {
    var slug := PathsFor(p).slug;
    && SameTestFiles(a.files, b.files, p)
    && (slug in a.hashes <==> slug in b.hashes)
    && (slug in a.hashes ==> a.hashes[slug] == b.hashes[slug])
  }

  /** Writing the same contents to the same path keeps two file maps in agreement. */
  lemma WriteKeepsAgreement(a: map<Path, Bytes>, b: map<Path, Bytes>, p: Path, k: Path, v: Bytes)
    requires SameTestFiles(a, b, p)
    ensures SameTestFiles(a[k := v], b[k := v], p)
  {
  }

  /** The digests of a test read only its four files. */
  lemma RecordForAgrees(a: map<Path, Bytes>, b: map<Path, Bytes>, md5: Bytes -> string, p: Path)
    requires SameTestFiles(a, b, p)
    ensures RecordFor(a, md5, p, PathsFor(p)) == RecordFor(b, md5, p, PathsFor(p))
  {
  }

  /** Whether a test is up to date reads only its four files and its entry. */
  lemma UpToDateAgrees(st1: State, st2: State, md5: Bytes -> string, p: Path)
    requires AgreeAt(st1, st2, p)
    ensures UpToDate(st1, md5, p, PathsFor(p)) == UpToDate(st2, md5, p, PathsFor(p))
  {
    RecordForAgrees(st1.files, st2.files, md5, p);
  }

  /** A call for `p` depends on nothing but what `AgreeAt` covers: from two
      states that agree there, it has the same outcome and leaves states that
      still agree there. */
  lemma RunCreateTestLocal(env: Env, st1: State, st2: State, p: Path, numCycles: int, force: bool)
    requires AgreeAt(st1, st2, p)
    ensures var s1 := RunCreateTest(env, st1, p, numCycles, force);
      var s2 := RunCreateTest(env, st2, p, numCycles, force);
      s1.outcome == s2.outcome && AgreeAt(s1.state, s2.state, p)
  {
    UpToDateAgrees(st1, st2, env.md5, p);
    assert IsAssemblyFile(st1.files, p) == IsAssemblyFile(st2.files, p);
    if IsAssemblyFile(st1.files, p) && InInputDir(p) && !(!force && IsCustomTest(p) && UpToDate(st1, env.md5, p, PathsFor(p))) {
      RegenerateLocal(env, st1, st2, p, numCycles);
    }
  }

  /** The regenerating part of a call, from two states that agree at `p`. */
  lemma RegenerateLocal(env: Env, st1: State, st2: State, p: Path, numCycles: int)
    requires AgreeAt(st1, st2, p)
    ensures var s1 := Regenerate(env, st1, p, numCycles);
      var s2 := Regenerate(env, st2, p, numCycles);
      s1.outcome == s2.outcome && AgreeAt(s1.state, s2.state, p)
  {
    var t := PathsFor(p);
    var run1 := TraceRun(env, p, numCycles, false);
    if !Errored(run1) {
      var v1 := env.csv(ReferenceRows(run1.lines));
      WriteKeepsAgreement(st1.files, st2.files, p, t.ref, v1);
      var run2 := TraceRun(env, p, numCycles, true);
      if !Errored(run2) {
        var v2 := env.csv(ReferenceRows(run2.lines));
        WriteKeepsAgreement(st1.files[t.ref := v1], st2.files[t.ref := v1], p, t.piperef, v2);
        var text := CircuitText(env, p, t.circ, |run2.lines|);
        if text.Success? {
          var f1 := st1.files[t.ref := v1][t.piperef := v2][t.circ := env.encode(text.value)];
          var f2 := st2.files[t.ref := v1][t.piperef := v2][t.circ := env.encode(text.value)];
          WriteKeepsAgreement(st1.files[t.ref := v1][t.piperef := v2], st2.files[t.ref := v1][t.piperef := v2], p, t.circ, env.encode(text.value));
          RecordForAgrees(f1, f2, env.md5, p);
        }
      }
    }
  }

  /** `x` is none of the artifacts `w`. */
  predicate Outside(x: Path, w: TestPaths) {
    x != w.circ && x != w.ref && x != w.piperef
  }

  /** The inputs `p` and `q` do not interfere: none of the input and
      artifacts of `p` is an artifact of `q`, and `q`, when it is a custom
      test, has another slug. */
  predicate Separate(p: Path, q: Path) {
    var tp, tq := PathsFor(p), PathsFor(q);
    && Outside(p, tq) && Outside(tp.circ, tq) && Outside(tp.ref, tq) && Outside(tp.piperef, tq)
    && (IsCustomTest(q) ==> tq.slug != tp.slug)
  }

  /** A change confined to the artifacts `w` of another test leaves alone the
      files of a test none of whose four files is among them. */
  lemma OutsideKept(before: map<Path, Bytes>, after: map<Path, Bytes>, w: TestPaths, p: Path, t: TestPaths)
    requires after.Keys <= before.Keys + {w.circ, w.ref, w.piperef}
    requires forall q :: q in before && q != w.circ && q != w.ref && q != w.piperef ==>
      q in after && after[q] == before[q]
    requires Outside(p, w) && Outside(t.circ, w) && Outside(t.ref, w) && Outside(t.piperef, w)
    ensures SameFile(after, before, p) && SameFile(after, before, t.circ)
    ensures SameFile(after, before, t.ref) && SameFile(after, before, t.piperef)
  {
  }

  /** A call for an input that does not interfere with `p` leaves everything
      a call for `p` reads as it was. */
  lemma OtherCallKeeps(env: Env, st: State, q: Path, p: Path, numCycles: int, force: bool)
    requires Separate(p, q)
    ensures AgreeAt(RunCreateTest(env, st, q, numCycles, force).state, st, p)
  {
    OtherCallKeepsFiles(env, st, q, p, numCycles, force);
    OtherCallKeepsEntry(env, st, q, p, numCycles, force);
  }

  /** A call for an input that does not interfere with `p` keeps the input
      and the artifacts of `p`. */
  lemma OtherCallKeepsFiles(env: Env, st: State, q: Path, p: Path, numCycles: int, force: bool)
    requires Separate(p, q)
    ensures SameTestFiles(RunCreateTest(env, st, q, numCycles, force).state.files, st.files, p)
  {
    var s := RunCreateTest(env, st, q, numCycles, force).state;
    var tp, tq := PathsFor(p), PathsFor(q);
    WritesOnlyArtifacts(env, st, q, numCycles, force);
    OutsideKept(st.files, s.files, tq, p, tp);
  }

  /** A call keeps the table entry of any other slug than its own custom one. */
  lemma OtherCallKeepsEntry(env: Env, st: State, q: Path, p: Path, numCycles: int, force: bool)
    requires IsCustomTest(q) ==> PathsFor(q).slug != PathsFor(p).slug
    ensures var s := RunCreateTest(env, st, q, numCycles, force).state;
      var slug := PathsFor(p).slug;
      (slug in s.hashes <==> slug in st.hashes) && (slug in st.hashes ==> s.hashes[slug] == st.hashes[slug])
  {
    TableUpdateRule(env, st, q, numCycles, force);
  }

  // ---------------------------------------------------------------------
  // create_tests
  // ---------------------------------------------------------------------

  /** The hash table a batch starts from: the stored one, or an empty table
      when there is none or it cannot be read. */
  function LoadedHashes(stored: Option<map<string, HashRecord>>): map<string, HashRecord> {
    if stored.Some? then stored.value else map[]
  }

  /** The inputs, one after the other, each seeing what the previous ones left. */
  function RunBatch(env: Env, st: State, paths: seq<Path>, numCycles: int, force: bool): State
    decreases |paths|
  {
    if |paths| == 0 then st
    else RunBatch(env, RunCreateTest(env, st, paths[0], numCycles, force).state, paths[1..], numCycles, force)
  }

  /** `create_tests`: the inputs in sorted order, one shared table, and the
      table as it is at the end returned for saving. */
  method CreateTests(fs: FileSystem, env: Env, asmPaths: seq<Path>, stored: Option<map<string, HashRecord>>,
                     numCycles: int, force: bool)
    returns (saved: map<string, HashRecord>)
    modifies fs
    ensures State(fs.files, saved) == RunBatch(env, State(old(fs.files), LoadedHashes(stored)), Sort(asmPaths), numCycles, force)
  {
    var sorted := Sort(asmPaths);
    var table := new HashTable(LoadedHashes(stored));
    ghost var start := State(fs.files, table.entries);
    for i := 0 to |sorted|
      invariant RunBatch(env, State(fs.files, table.entries), sorted[i..], numCycles, force)
             == RunBatch(env, start, sorted, numCycles, force)
    {
      assert sorted[i..][1..] == sorted[i + 1..];
      var _ := CreateTest(fs, table, env, sorted[i], numCycles, force);
    }
    saved := table.entries;
  }

  /** The batch's result does not depend on the order the inputs were given
      in, since they are sorted first. */
  lemma BatchIgnoresInputOrder(env: Env, st: State, a: seq<Path>, b: seq<Path>, numCycles: int, force: bool)
    requires multiset(a) == multiset(b)
    ensures RunBatch(env, st, Sort(a), numCycles, force) == RunBatch(env, st, Sort(b), numCycles, force)
  {
    SortedPermutationUnique(Sort(a), Sort(b));
  }

  /** Hash entries of slugs that no custom input of the batch has are left as
      they were. */
  lemma {:induction false} BatchKeepsOtherEntries(env: Env, st: State, paths: seq<Path>, numCycles: int, force: bool, slug: string)
    requires forall i :: 0 <= i < |paths| && IsCustomTest(paths[i]) ==> PathsFor(paths[i]).slug != slug
    ensures var end := RunBatch(env, st, paths, numCycles, force);
      (slug in end.hashes <==> slug in st.hashes) && (slug in st.hashes ==> end.hashes[slug] == st.hashes[slug])
    decreases |paths|
  {
    if |paths| > 0 {
      TableUpdateRule(env, st, paths[0], numCycles, force);
      var next := RunCreateTest(env, st, paths[0], numCycles, force).state;
      BatchKeepsOtherEntries(env, next, paths[1..], numCycles, force, slug);
    }
  }

  /** A batch writes no file but the artifacts of its inputs. */
  lemma {:induction false} BatchWritesOnlyArtifacts(env: Env, st: State, paths: seq<Path>, numCycles: int, force: bool, q: Path)
    requires q in st.files
    requires forall i :: 0 <= i < |paths| ==> q != PathsFor(paths[i]).circ && q != PathsFor(paths[i]).ref && q != PathsFor(paths[i]).piperef
    ensures var end := RunBatch(env, st, paths, numCycles, force);
      q in end.files && end.files[q] == st.files[q]
    decreases |paths|
  {
    if |paths| > 0 {
      WritesOnlyArtifacts(env, st, paths[0], numCycles, force);
      var next := RunCreateTest(env, st, paths[0], numCycles, force).state;
      BatchWritesOnlyArtifacts(env, next, paths[1..], numCycles, force, q);
    }
  }

  /** No input of `rest` interferes with `p`. */
  predicate ApartFromAll(p: Path, rest: seq<Path>) {
    forall q :: q in rest ==> Separate(p, q)
  }

  /** Inputs that do not interfere with `p` leave everything a call for `p`
      reads as it was. */
  lemma {:induction false} OthersKeep(env: Env, st: State, paths: seq<Path>, p: Path, numCycles: int, force: bool)
    requires ApartFromAll(p, paths)
    ensures AgreeAt(RunBatch(env, st, paths, numCycles, force), st, p)
    decreases |paths|
  {
    if |paths| > 0 {
      var next := RunCreateTest(env, st, paths[0], numCycles, force).state;
      OtherCallKeeps(env, st, paths[0], p, numCycles, force);
      OthersKeep(env, next, paths[1..], p, numCycles, force);
    }
  }

  /** Agreement at `p` is transitive. */
  lemma AgreeAtTransitive(a: State, b: State, c: State, p: Path)
    requires AgreeAt(a, b, p) && AgreeAt(b, c, p)
    ensures AgreeAt(a, c, p)
  {
  }

  /** Running a batch in two parts is running it whole. */
  lemma {:induction false} BatchAppend(env: Env, st: State, a: seq<Path>, b: seq<Path>, numCycles: int, force: bool)
    ensures RunBatch(env, st, a + b, numCycles, force) == RunBatch(env, RunBatch(env, st, a, numCycles, force), b, numCycles, force)
    decreases |a|
  {
    if |a| > 0 {
      assert (a + b)[0] == a[0] && (a + b)[1..] == a[1..] + b;
      BatchAppend(env, RunCreateTest(env, st, a[0], numCycles, force).state, a[1..], b, numCycles, force);
    } else {
      assert a + b == b;
    }
  }

  /** From a state that agrees with `st` at `p`, running `p` and then inputs
      that do not interfere with it leaves `p` as running it alone on `st`. */
  lemma RunThenOthers(env: Env, st: State, mid: State, p: Path, rest: seq<Path>, numCycles: int, force: bool)
    requires AgreeAt(mid, st, p)
    requires ApartFromAll(p, rest)
    ensures AgreeAt(RunBatch(env, mid, [p] + rest, numCycles, force), RunCreateTest(env, st, p, numCycles, force).state, p)
  {
    var after := RunCreateTest(env, mid, p, numCycles, force).state;
    assert ([p] + rest)[1..] == rest;
    RunCreateTestLocal(env, mid, st, p, numCycles, force);
    OthersKeep(env, after, rest, p, numCycles, force);
    AgreeAtTransitive(RunBatch(env, after, rest, numCycles, force), after, RunCreateTest(env, st, p, numCycles, force).state, p);
  }

  /** Failure isolation: an input that none of the inputs before or after
      it in the batch interferes with ends the batch with its input,
      artifacts and table entry exactly as if it had been run alone, whatever
      became of the other inputs, failures included. The template is
      `env.template` throughout. */
  lemma BatchIsolatesInput(env: Env, st: State, paths: seq<Path>, i: int, numCycles: int, force: bool)
    requires 0 <= i < |paths|
    requires ApartFromAll(paths[i], paths[..i]) && ApartFromAll(paths[i], paths[i + 1..])
    ensures AgreeAt(RunBatch(env, st, paths, numCycles, force), RunCreateTest(env, st, paths[i], numCycles, force).state, paths[i])
  {
    assert paths == paths[..i] + ([paths[i]] + paths[i + 1..]);
    BatchAppend(env, st, paths[..i], [paths[i]] + paths[i + 1..], numCycles, force);
    OthersKeep(env, st, paths[..i], paths[i], numCycles, force);
    RunThenOthers(env, st, RunBatch(env, st, paths[..i], numCycles, force), paths[i], paths[i + 1..], numCycles, force);
  }
}
