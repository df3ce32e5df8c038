/** `generate_test_circ`: turns Venus's instruction dump into compact words,
    builds the ROM block and the halt constant, and substitutes them, with the
    harness import path, into the circuit template. */
module Circuit {
  import opened Wrappers
  import opened Text
  import opened Numerals
  import opened Paths
  import opened Host

  /** The three literal regions of the template that get replaced. */
  const HarnessImportRef := "file#cpu-harness.circ"
  const RomContentsRef := "addr/data: 14 32\n0\n"
  const HaltConstantRef := "0x4258"

  /** The ROM header: 14 address bits, 32 data bits. */
  const RomHeader := "addr/data: 14 32\n"

  // ---------------------------------------------------------------------
  // Instruction words
  // ---------------------------------------------------------------------

  predicate IsZeroDigit(c: char) {
    c == '0'
  }

  /** A compact word: not empty, and no leading zero unless it is `0` itself. */
  predicate IsCompactWord(w: string) {
    w != "" && (w[0] == '0' ==> w == "0")
  }

  /** One dump line as a word: stripped, its first `0x` (wherever it stands)
      removed, leading zeros removed, and `0` if nothing is left. */
  function NormalizeWord(line: string): (w: string)
    ensures IsCompactWord(w)
  {
    var digits := LStrip(ReplaceFirst(Strip(line), "0x", ""), IsZeroDigit);
    if digits == "" then "0" else digits
  }

  /** What one dump line contributes: nothing when it is blank, else its word. */
  function WordOf(line: string): seq<string> {
    if Strip(line) == "" then [] else [NormalizeWord(line)]
  }

  /** The words of a dump: one per line that is not blank, in order. */
  function InstWords(lines: seq<string>): seq<string> {
    if |lines| == 0 then [] else InstWords(lines[..|lines| - 1]) + WordOf(lines[|lines| - 1])
  }

  /** The loop that reads the dump and appends one word per non-blank line. */
  method CollectInstWords(lines: seq<string>) returns (insts: seq<string>)
    ensures insts == InstWords(lines)
  {
    insts := [];
    for i := 0 to |lines|
      invariant insts == InstWords(lines[..i])
    {
      assert lines[..i + 1][..i] == lines[..i];
      var line := Strip(lines[i]);
      if line == "" {
        continue;
      }
      insts := insts + [NormalizeWord(lines[i])];
    }
    assert lines[..|lines|] == lines;
  }

  /** A single line contributes its word, or nothing when it is blank (all
      whitespace). */
  lemma InstWordsOfLine(line: string)
    ensures InstWords([line]) == if forall k :: 0 <= k < |line| ==> IsSpace(line[k]) then [] else [NormalizeWord(line)]
  {
    StripShape(line);
    assert [line][..0] == [];
  }

  /** The words of consecutive parts of a dump are the words of each part, in order. */
  lemma {:induction false} InstWordsAppend(a: seq<string>, b: seq<string>)
    ensures InstWords(a + b) == InstWords(a) + InstWords(b)
  {
    if |b| == 0 {
      assert a + b == a;
    } else {
      var b' := b[..|b| - 1];
      assert (a + b)[..|a + b| - 1] == a + b';
      assert (a + b)[|a + b| - 1] == b[|b| - 1];
      InstWordsAppend(a, b');
      assert InstWords(a + b) == InstWords(a + b') + WordOf(b[|b| - 1]);
      assert InstWords(b) == InstWords(b') + WordOf(b[|b| - 1]);
    }
  }

  /** Every word of a dump is compact, and there are never more words than lines. */
  lemma {:induction false} InstWordsCompact(lines: seq<string>)
    ensures |InstWords(lines)| <= |lines|
    ensures forall i :: 0 <= i < |InstWords(lines)| ==> IsCompactWord(InstWords(lines)[i])
  {
    if |lines| > 0 {
      InstWordsCompact(lines[..|lines| - 1]);
    }
  }

  /** Two dump words as Venus prints them: the prefix and the zeros go, and
      an all-zero word is `0`. */
  lemma NormalizeWordExamples()
    ensures NormalizeWord("0x00001234") == "1234"
    ensures NormalizeWord("0x00000000") == "0"
  {
    assert "0x00001234" == "0x" + "0000" + "1234";
    NormalizeHexWord("0000", "1234");
    assert "0x00000000" == "0x" + "00000000" + "";
    NormalizeHexWord("00000000", "");
  }

  /** A dump word as Venus prints it, `0x`, zero padding, then digits not
      starting with a zero, normalises to those digits, or to `0` when there
      are none. */
  lemma NormalizeHexWord(zeros: string, digits: string)
    requires forall k :: 0 <= k < |zeros| ==> zeros[k] == '0'
    requires digits == "" || (digits[0] != '0' && !IsSpace(digits[|digits| - 1]))
    ensures NormalizeWord("0x" + zeros + digits) == if digits == "" then "0" else digits
  {
    var rest := zeros + digits;
    var line := "0x" + rest;
    assert "0x" + zeros + digits == line;
    assert line[0] == '0';
    if digits != "" {
      assert line[|line| - 1] == digits[|digits| - 1];
    } else if zeros != "" {
      assert line[|line| - 1] == zeros[|zeros| - 1];
    }
    StripUnchanged(line);
    ReplaceFirstAtHead("0x", rest, "");
    assert "" + rest == rest;
    LStripAfter(zeros, digits, IsZeroDigit);
    assert LStrip(rest, IsZeroDigit) == digits;
  }

  /** An inner `0x` is removed as well: only the first occurrence counts, not
      its position. */
  lemma NormalizeWordInnerPrefix()
    ensures NormalizeWord("120x34") == "1234"
  {
    StripUnchanged("120x34");
    ReplaceFirstAtHead("0x", "34", "");
    assert "0x" + "34" == "0x34" && "" + "34" == "34";
    assert "120x34"[0] != '0' && "20x34"[0] != '0';
    assert "120x34"[1..] == "20x34" && "20x34"[1..] == "0x34";
    assert ReplaceFirst("120x34", "0x", "") == "1234";
  }

  /** Without a `0x` anywhere, a line only loses its whitespace and leading zeros. */
  lemma NormalizeWordWithoutPrefix(line: string)
    requires !Contains(Strip(line), "0x")
    ensures NormalizeWord(line) == if LStrip(Strip(line), IsZeroDigit) == "" then "0" else LStrip(Strip(line), IsZeroDigit)
  {
    ReplaceFirstAbsent(Strip(line), "0x", "");
  }

  // ---------------------------------------------------------------------
  // ROM block and halt constant
  // ---------------------------------------------------------------------

  /** The ROM contents block: the header, the lower-cased words joined by spaces, a newline. */
  function RomContents(insts: seq<string>): string {
    RomHeader + Lower(Join(insts, " ")) + "\n"
  }

  function LowerAll(ws: seq<string>): (r: seq<string>)
    ensures |r| == |ws| && forall i :: 0 <= i < |ws| ==> r[i] == Lower(ws[i])
  {
    if |ws| == 0 then [] else [Lower(ws[0])] + LowerAll(ws[1..])
  }

  lemma {:induction false} LowerJoin(ws: seq<string>)
    ensures Lower(Join(ws, " ")) == Join(LowerAll(ws), " ")
  {
    if |ws| > 1 {
      LowerJoin(ws[1..]);
      LowerConcat(ws[0] + " ", Join(ws[1..], " "));
      LowerConcat(ws[0], " ");
      assert LowerAll(ws)[1..] == LowerAll(ws[1..]);
    }
  }

  lemma LowerKeepsSpaceFree(w: string)
    requires ' ' !in w
    ensures ' ' !in Lower(w)
  {
    LowerShape(w);
    forall i | 0 <= i < |w| ensures Lower(w)[i] != ' ' {
      assert w[i] != ' ';
    }
  }

  /** The ROM block starts with the header and ends with a newline, and for
      space-free words its data line splits back into exactly the words,
      lower-cased, in order. */
  lemma RomContentsLists(insts: seq<string>)
    requires |insts| >= 1
    requires forall i :: 0 <= i < |insts| ==> ' ' !in insts[i]
    ensures var rom := RomContents(insts);
      && |rom| > |RomHeader| && rom[..|RomHeader|] == RomHeader && rom[|rom| - 1] == '\n'
      && Split(rom[|RomHeader|..|rom| - 1], ' ') == LowerAll(insts)
  {
    var rom := RomContents(insts);
    var data := Lower(Join(insts, " "));
    assert rom[|RomHeader|..|rom| - 1] == data;
    LowerJoin(insts);
    forall i | 0 <= i < |insts| ensures ' ' !in LowerAll(insts)[i] {
      LowerKeepsSpaceFree(insts[i]);
    }
    SplitJoin(LowerAll(insts), ' ');
  }

  /** The halt constant: the cycle count as Python's `hex`. */
  function HaltConstant(numCycles: nat): string {
    Hex(numCycles)
  }

  // ---------------------------------------------------------------------
  // Template substitution
  // ---------------------------------------------------------------------

  predicate HasAllMarkers(template: string) {
    Contains(template, HarnessImportRef) && Contains(template, RomContentsRef) && Contains(template, HaltConstantRef)
  }

  /** The circuit text: all three markers are checked, in order, before any
      replacement; then each marker is replaced at every occurrence, harness
      import first, ROM block second, halt constant last. */
  function Render(template: string, harnessRel: string, insts: seq<string>, numCycles: nat, circ: string)
    : Result<string, TestCreateError>
  {
    if !Contains(template, HarnessImportRef) then Failure(HarnessImportMissing(circ))
    else if !Contains(template, RomContentsRef) then Failure(RomContentsMissing(circ))
    else if !Contains(template, HaltConstantRef) then Failure(HaltValueMissing(circ))
    else
      var withImport := ReplaceAll(template, HarnessImportRef, "file#" + harnessRel);
      var withRom := ReplaceAll(withImport, RomContentsRef, RomContents(insts));
      Success(ReplaceAll(withRom, HaltConstantRef, HaltConstant(numCycles)))
  }

  /** Substitution fails exactly when a marker is missing, and names the first
      missing one in the order harness import, ROM block, halt value. */
  lemma RenderFailsFast(template: string, harnessRel: string, insts: seq<string>, numCycles: nat, circ: string)
    ensures var r := Render(template, harnessRel, insts, numCycles, circ);
      && (r.Failure? <==> !HasAllMarkers(template))
      && (!Contains(template, HarnessImportRef) ==> r == Failure(HarnessImportMissing(circ)))
      && (Contains(template, HarnessImportRef) && !Contains(template, RomContentsRef) ==> r == Failure(RomContentsMissing(circ)))
      && (Contains(template, HarnessImportRef) && Contains(template, RomContentsRef) && !Contains(template, HaltConstantRef)
          ==> r == Failure(HaltValueMissing(circ)))
  {
  }

  /** No occurrence of the harness import or the ROM marker overlaps an
      occurrence of the halt marker: the `x` of `0x4258` is in neither, and
      neither ends with its `0` nor starts with one of `4258`. */
  lemma HaltMarkerApart(s: string, i: int)
    requires OccursAt(s, HaltConstantRef, i)
    ensures ApartFrom(s, HarnessImportRef, i, |HaltConstantRef|)
    ensures ApartFrom(s, RomContentsRef, i, |HaltConstantRef|)
  {
    assert 'x' !in HarnessImportRef && 'x' !in RomContentsRef;
    ApartByMiddle(s, HarnessImportRef, HaltConstantRef, i, 1);
    ApartByMiddle(s, RomContentsRef, HaltConstantRef, i, 1);
  }

  /** No occurrence of the harness import overlaps an occurrence of the ROM
      marker: the marker's final newline is not in the import, and the
      import's final `c` is nowhere in the marker. */
  lemma RomMarkerApart(s: string, i: int)
    requires OccursAt(s, RomContentsRef, i)
    ensures ApartFrom(s, HarnessImportRef, i, |RomContentsRef|)
  {
    assert '\n' !in HarnessImportRef && 'c' !in RomContentsRef;
    ApartByMiddle(s, HarnessImportRef, RomContentsRef, i, |RomContentsRef| - 1);
  }

  /** No word holds an `x` of either case. */
  predicate WordsWithoutX(insts: seq<string>) {
    forall k :: 0 <= k < |insts| ==> 'x' !in insts[k] && 'X' !in insts[k]
  }

  /** Words without an `x` of either case give a ROM block without an `x`. */
  lemma RomContentsAvoidsX(insts: seq<string>)
    requires WordsWithoutX(insts)
    ensures 'x' !in RomContents(insts)
  {
    var joined := Join(insts, " ");
    JoinAvoids(insts, " ", 'x');
    JoinAvoids(insts, " ", 'X');
    LowerShape(joined);
    forall k | 0 <= k < |joined| ensures Lower(joined)[k] != 'x' {
      assert joined[k] != 'x' && joined[k] != 'X';
    }
    assert 'x' !in RomHeader;
  }

  /** Once every marker is present, the halt constant, which reads back as
      the cycle count, ends up in the circuit: the two earlier replacements
      cannot touch the halt marker. */
  lemma RenderPlacesHalt(template: string, harnessRel: string, insts: seq<string>, numCycles: nat, circ: string)
    requires HasAllMarkers(template)
    ensures var r := Render(template, harnessRel, insts, numCycles, circ);
      && r.Success? && Contains(r.value, HaltConstant(numCycles))
      && ParseHex(HaltConstant(numCycles)) == Some(numCycles)
  {
    var withImport := ReplaceAll(template, HarnessImportRef, "file#" + harnessRel);
    var withRom := ReplaceAll(withImport, RomContentsRef, RomContents(insts));
    var i := ContainsWitness(template, HaltConstantRef);
    HaltMarkerApart(template, i);
    ReplaceAllKeeps(template, HarnessImportRef, "file#" + harnessRel, HaltConstantRef, i);
    var j := ContainsWitness(withImport, HaltConstantRef);
    HaltMarkerApart(withImport, j);
    ReplaceAllKeeps(withImport, RomContentsRef, RomContents(insts), HaltConstantRef, j);
    ReplaceAllIntroduces(withRom, HaltConstantRef, HaltConstant(numCycles));
    HexRoundTrip(numCycles);
  }

  /** Once every marker is present, the ROM block ends up in the circuit when
      no word holds an `x`: the import replacement cannot touch the ROM
      marker, and the halt marker cannot occur in, or straddle, an `x`-free
      block that starts with `a` and ends with a newline. */
  lemma RenderPlacesRom(template: string, harnessRel: string, insts: seq<string>, numCycles: nat, circ: string)
    requires HasAllMarkers(template)
    requires WordsWithoutX(insts)
    ensures var r := Render(template, harnessRel, insts, numCycles, circ);
      r.Success? && Contains(r.value, RomContents(insts))
  {
    var rom := RomContents(insts);
    var withImport := ReplaceAll(template, HarnessImportRef, "file#" + harnessRel);
    var withRom := ReplaceAll(withImport, RomContentsRef, rom);
    var i := ContainsWitness(template, RomContentsRef);
    RomMarkerApart(template, i);
    ReplaceAllKeeps(template, HarnessImportRef, "file#" + harnessRel, RomContentsRef, i);
    ReplaceAllIntroduces(withImport, RomContentsRef, rom);
    var j := ContainsWitness(withRom, rom);
    RomContentsAvoidsX(insts);
    ContainsHead(rom, HaltConstantRef);
    assert rom[0] == 'a' && rom[|rom| - 1] == '\n';
    assert 'a' !in HaltConstantRef && '\n' !in HaltConstantRef;
    ApartByEnds(withRom, HaltConstantRef, rom, j);
    ReplaceAllKeeps(withRom, HaltConstantRef, HaltConstant(numCycles), rom, j);
  }

  /** The dump command. */
  function DumpCommand(jar: string, asm: string): seq<string> {
    ["java", "-jar", jar, asm, "--dump"]
  }

  /** The circuit text for a test, from the dump Venus prints (its exit code is
      not looked at) and the given cycle count. */
  function CircuitText(env: Env, asmPath: Path, circPath: Path, numCycles: nat): Result<string, TestCreateError> {
    var dump := env.venus(DumpCommand(env.venusJar, PathString(asmPath)));
    Render(env.template, env.harnessRelPath(Parent(circPath)), InstWords(dump.lines), numCycles, PathString(circPath))
  }

  /** With every marker in the template, the circuit text holds the halt
      constant for the cycle count and, when no dumped word holds an `x`, the
      ROM block of the dumped words. */
  lemma CircuitTextPlaces(env: Env, asmPath: Path, circPath: Path, numCycles: nat)
    requires HasAllMarkers(env.template)
    ensures var text := CircuitText(env, asmPath, circPath, numCycles);
      var insts := InstWords(env.venus(DumpCommand(env.venusJar, PathString(asmPath))).lines);
      && text.Success?
      && Contains(text.value, HaltConstant(numCycles)) && ParseHex(HaltConstant(numCycles)) == Some(numCycles)
      && (WordsWithoutX(insts) ==> Contains(text.value, RomContents(insts)))
  {
    var insts := InstWords(env.venus(DumpCommand(env.venusJar, PathString(asmPath))).lines);
    var rel, circ := env.harnessRelPath(Parent(circPath)), PathString(circPath);
    RenderPlacesHalt(env.template, rel, insts, numCycles, circ);
    if WordsWithoutX(insts) {
      RenderPlacesRom(env.template, rel, insts, numCycles, circ);
    }
  }

  /** Writes the test circuit, or, when the template lacks a marker, raises
      without writing anything. */
  method GenerateTestCirc(fs: FileSystem, env: Env, asmPath: Path, circPath: Path, numCycles: nat)
    returns (r: Outcome<TestCreateError>)
    modifies fs
    ensures var text := CircuitText(env, asmPath, circPath, numCycles);
      if text.Failure? then r == Fail(text.error) && fs.files == old(fs.files)
      else r == Pass && fs.files == old(fs.files)[circPath := env.encode(text.value)]
  {
    var dump := env.venus(DumpCommand(env.venusJar, PathString(asmPath)));
    var insts := CollectInstWords(dump.lines);
    var romContents := RomContents(insts);
    var haltConstant := HaltConstant(numCycles);
    var data := env.template;
    var circ := PathString(circPath);
    if !Contains(data, HarnessImportRef) {
      return Fail(HarnessImportMissing(circ));
    }
    if !Contains(data, RomContentsRef) {
      return Fail(RomContentsMissing(circ));
    }
    if !Contains(data, HaltConstantRef) {
      return Fail(HaltValueMissing(circ));
    }
    data := ReplaceAll(data, HarnessImportRef, "file#" + env.harnessRelPath(Parent(circPath)));
    data := ReplaceAll(data, RomContentsRef, romContents);
    data := ReplaceAll(data, HaltConstantRef, haltConstant);
    fs.Write(circPath, env.encode(data));
    return Pass;
  }
}
