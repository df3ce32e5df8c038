/** The content hashes that let the generator skip a custom test whose
    assembly and artifacts are unchanged: `get_hash` and `check_hash`, and the
    per-test record kept in `tools/.hashes.json`. */
module Hashing {
  import opened Wrappers
  import opened Text
  import opened Paths
  import opened Host

  const CR: byte := 13
  const LF: byte := 10

  /** The bytes hashed for a file: every CR LF pair, scanning left to right,
      becomes a single LF. */
  function NormalizeLineEndings(data: Bytes): Bytes {
    ReplaceAll(data, [CR, LF], [LF])
  }

  /** The same bytes written with Windows line endings: every LF becomes CR LF. */
  function WithCrlf(data: Bytes): Bytes {
    ReplaceAll(data, [LF], [CR, LF])
  }

  /** `get_hash`: no digest for a path that is not a regular file, else the
      MD5 hex digest of its contents with line endings normalised. */
  function GetHash(files: map<Path, Bytes>, p: Path, md5: Bytes -> string): Option<string> {
    if p in files then Some(md5(NormalizeLineEndings(files[p]))) else None
  }

  /** One entry of the hash table. A field is `None` when the key is missing
      from the JSON object or holds `null`. */
  datatype HashRecord = HashRecord(input: Option<string>, circ: Option<string>, ref: Option<string>, piperef: Option<string>)

  /** `check_hash`: the stored digest is truthy (present and non-empty) and
      equal to the current one. */
  predicate CheckHash(expected: Option<string>, current: Option<string>) {
    expected.Some? && expected.value != "" && current == expected
  }

  /** A stored digest matches a file exactly when the file exists, the digest
      is not empty, and it is the digest of the file's normalised contents; in
      particular a missing file or an absent or empty digest never matches. */
  lemma CheckHashOfFile(files: map<Path, Bytes>, p: Path, md5: Bytes -> string, expected: Option<string>)
    ensures CheckHash(expected, GetHash(files, p, md5))
      <==> p in files && expected == Some(md5(NormalizeLineEndings(files[p]))) && expected.value != ""
    ensures GetHash(files, p, md5).None? <==> p !in files
    ensures p !in files || expected.None? || expected == Some("") ==> !CheckHash(expected, GetHash(files, p, md5))
  {
  }

  /** Converting line endings to CR LF and normalising them back restores
      text that had no CR of its own. */
  lemma {:induction false} CrlfRoundTrip(data: Bytes)
    requires CR !in data
    ensures NormalizeLineEndings(WithCrlf(data)) == data
    decreases |data|
  {
    if |data| > 0 {
      var rest := WithCrlf(data[1..]);
      CrlfRoundTrip(data[1..]);
      if data[0] == LF {
        assert [LF] <= data;
        assert WithCrlf(data) == [CR, LF] + rest;
        assert [CR, LF] <= [CR, LF] + rest;
        assert ([CR, LF] + rest)[2..] == rest;
      } else {
        assert !([LF] <= data);
        assert WithCrlf(data) == [data[0]] + rest;
        assert data[0] != CR;
        assert ([data[0]] + rest)[0] != CR;
        assert !([CR, LF] <= [data[0]] + rest);
        assert |rest| > 0 ==> ([data[0]] + rest)[1..] == rest;
        assert data == [data[0]] + data[1..];
      }
    }
  }

  /** The stored digest does not depend on whether a file was written with
      LF or CR LF line endings. */
  lemma HashIgnoresCrlf(files: map<Path, Bytes>, p: Path, md5: Bytes -> string, data: Bytes)
    requires CR !in data
    ensures GetHash(files[p := WithCrlf(data)], p, md5) == GetHash(files[p := data], p, md5)
    ensures GetHash(files[p := WithCrlf(data)], p, md5) == Some(md5(data))
  {
    CrlfRoundTrip(data);
    ContainsHead(data, [CR, LF]);
    ReplaceAllAbsent(data, [CR, LF], [LF]);
  }

  /** Normalisation is a single pass: a CR in front of a CR LF pair survives,
      so normalising twice is not the same as normalising once. */
  lemma NormalizeSinglePass()
    ensures NormalizeLineEndings([CR, CR, LF]) == [CR, LF]
    ensures NormalizeLineEndings([CR, LF]) == [LF]
    ensures NormalizeLineEndings(NormalizeLineEndings([CR, CR, LF])) != NormalizeLineEndings([CR, CR, LF])
  {
    var s: Bytes := [CR, CR, LF];
    var t: Bytes := [CR, LF];
    assert t[2..] == [];
    assert NormalizeLineEndings(t) == [LF] + NormalizeLineEndings([]);
    assert s[0] != t[1];
    assert s[1..] == t;
    assert NormalizeLineEndings(s) == [CR] + NormalizeLineEndings(t);
  }
}
