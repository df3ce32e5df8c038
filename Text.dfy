/** The Python `str` (and `bytes`) operations the fixture generator relies on,
    stated on sequences. Where an operation does not care about the element
    type (`in`, `replace`) it is generic, so that the same definition serves
    text and bytes. */
module Text {

  // ---------------------------------------------------------------------
  // Whitespace and stripping
  // ---------------------------------------------------------------------

  /** Python's `str.isspace` for a single character. */
  predicate IsSpace(c: char) {
    var n := c as int;
    n == 0x20 || 0x09 <= n <= 0x0D || 0x1C <= n <= 0x1F || n == 0x85 || n == 0xA0
    || n == 0x1680 || 0x2000 <= n <= 0x200A || n == 0x2028 || n == 0x2029
    || n == 0x202F || n == 0x205F || n == 0x3000
  }

  /** `s.lstrip(chars)`: drops the longest prefix whose characters all satisfy `strip`. */
  function LStrip(s: string, strip: char -> bool): (r: string)
    ensures |r| <= |s|
    ensures forall k :: 0 <= k < |s| - |r| ==> strip(s[k])
    ensures r == [] || !strip(r[0])
  {
    if |s| > 0 && strip(s[0]) then LStrip(s[1..], strip) else s
  }

  /** What `lstrip` keeps is a suffix of its input. */
  lemma {:induction false} LStripSuffix(s: string, strip: char -> bool)
    ensures LStrip(s, strip) == s[|s| - |LStrip(s, strip)|..]
  {
    if |s| > 0 && strip(s[0]) {
      LStripSuffix(s[1..], strip);
    }
  }

  /** Stripping a prefix of stripped characters in front of a part that does
      not start with one leaves exactly that part. */
  lemma {:induction false} LStripAfter(a: string, b: string, strip: char -> bool)
    requires forall k :: 0 <= k < |a| ==> strip(a[k])
    requires b == [] || !strip(b[0])
    ensures LStrip(a + b, strip) == b
  {
    if |a| > 0 {
      assert (a + b)[1..] == a[1..] + b;
      LStripAfter(a[1..], b, strip);
    }
  }

  /** `s.rstrip(chars)`: drops the longest suffix whose characters all satisfy `strip`. */
  function RStrip(s: string, strip: char -> bool): (r: string)
    ensures |r| <= |s|
    ensures forall k :: |r| <= k < |s| ==> strip(s[k])
    ensures r == [] || !strip(r[|r| - 1])
  {
    if |s| > 0 && strip(s[|s| - 1]) then RStrip(s[..|s| - 1], strip) else s
  }

  /** What `rstrip` keeps is a prefix of its input. */
  lemma {:induction false} RStripPrefix(s: string, strip: char -> bool)
    ensures RStrip(s, strip) == s[..|RStrip(s, strip)|]
  {
    if |s| > 0 && strip(s[|s| - 1]) {
      RStripPrefix(s[..|s| - 1], strip);
    }
  }

  /** `s.strip()`: leading and trailing whitespace removed. */
  function Strip(s: string): string {
    RStrip(LStrip(s, IsSpace), IsSpace)
  }

  /** A stripped string is empty exactly when the input is all whitespace, and
      otherwise neither starts nor ends with whitespace. */
  lemma StripShape(s: string)
    ensures Strip(s) == [] <==> forall k :: 0 <= k < |s| ==> IsSpace(s[k])
    ensures Strip(s) != [] ==> !IsSpace(Strip(s)[0]) && !IsSpace(Strip(s)[|Strip(s)| - 1])
  {
    var l := LStrip(s, IsSpace);
    var r := RStrip(l, IsSpace);
    LStripSuffix(s, IsSpace);
    RStripPrefix(l, IsSpace);
    if r != [] {
      assert !IsSpace(r[0]) by {
        if |l| > 0 {
          assert r[0] == l[0];
        }
      }
      assert r[0] == s[|s| - |l|];
    }
  }

  /** A string that neither starts nor ends with whitespace is its own strip. */
  lemma StripUnchanged(s: string)
    requires s == [] || (!IsSpace(s[0]) && !IsSpace(s[|s| - 1]))
    ensures Strip(s) == s
  {
    LStripAfter([], s, IsSpace);
    assert [] + s == s;
  }

  // ---------------------------------------------------------------------
  // Lower-casing
  // ---------------------------------------------------------------------

  /** `str.lower` on one character, for the ASCII letters. */
  function LowerChar(c: char): char {
    if 'A' <= c <= 'Z' then (c as int + 32) as char else c
  }

  /** `s.lower()`, character by character. */
  function Lower(s: string): string {
    if |s| == 0 then "" else [LowerChar(s[0])] + Lower(s[1..])
  }

  lemma {:induction false} LowerConcat(a: string, b: string)
    ensures Lower(a + b) == Lower(a) + Lower(b)
  {
    if |a| == 0 {
      assert a + b == b;
    } else {
      assert (a + b)[1..] == a[1..] + b;
      LowerConcat(a[1..], b);
    }
  }

  /** Lower-casing keeps the length and leaves no ASCII capital behind. */
  lemma {:induction false} LowerShape(s: string)
    ensures |Lower(s)| == |s|
    ensures forall i :: 0 <= i < |s| ==> Lower(s)[i] == LowerChar(s[i]) && !('A' <= Lower(s)[i] <= 'Z')
  {
    if |s| > 0 {
      LowerShape(s[1..]);
    }
  }

  // ---------------------------------------------------------------------
  // Splitting and joining
  // ---------------------------------------------------------------------

  /** `s.split(sep)` for a one-character separator: the pieces between
      separators, including empty ones; the empty string gives `[""]`. */
  function Split(s: string, sep: char): (r: seq<string>)
    ensures |r| >= 1
    ensures forall i :: 0 <= i < |r| ==> sep !in r[i]
  {
    if |s| == 0 then [""]
    else
      var rest := Split(s[1..], sep);
      if s[0] == sep then [""] + rest
      else [[s[0]] + rest[0]] + rest[1..]
  }

  /** A character absent from the string is absent from every piece of its split. */
  lemma {:induction false} SplitAvoids(s: string, sep: char, c: char)
    requires c !in s
    ensures forall i :: 0 <= i < |Split(s, sep)| ==> c !in Split(s, sep)[i]
  {
    if |s| > 0 {
      assert c !in s[1..] && c != s[0];
      SplitAvoids(s[1..], sep, c);
    }
  }

  /** `sep.join(parts)`. */
  function Join(parts: seq<string>, sep: string): string {
    if |parts| == 0 then ""
    else if |parts| == 1 then parts[0]
    else parts[0] + sep + Join(parts[1..], sep)
  }

  /** An element absent from the separator and from every part is absent from the join. */
  lemma {:induction false} JoinAvoids(parts: seq<string>, sep: string, c: char)
    requires c !in sep
    requires forall i :: 0 <= i < |parts| ==> c !in parts[i]
    ensures c !in Join(parts, sep)
  {
    if |parts| > 1 {
      JoinAvoids(parts[1..], sep, c);
      assert c !in parts[0];
    }
  }

  /** Joining the pieces of a split with the separator gives the string back. */
  lemma {:induction false} JoinSplit(s: string, sep: char)
    ensures Join(Split(s, sep), [sep]) == s
  {
    if |s| > 0 {
      var rest := Split(s[1..], sep);
      JoinSplit(s[1..], sep);
      if s[0] == sep {
        assert ([""] + rest)[1..] == rest;
      } else if |rest| > 1 {
        var r := [[s[0]] + rest[0]] + rest[1..];
        assert r[1..] == rest[1..];
        assert Join(rest, [sep]) == rest[0] + [sep] + Join(rest[1..], [sep]);
      }
    }
  }

  lemma {:induction false} SplitNoSeparator(a: string, sep: char)
    requires sep !in a
    ensures Split(a, sep) == [a]
  {
    if |a| > 0 {
      SplitNoSeparator(a[1..], sep);
      assert [a[0]] + a[1..] == a;
    }
  }

  lemma {:induction false} SplitAfterPiece(a: string, b: string, sep: char)
    requires sep !in a
    ensures Split(a + [sep] + b, sep) == [a] + Split(b, sep)
  {
    var s := a + [sep] + b;
    if |a| == 0 {
      assert s[1..] == b;
    } else {
      assert s[1..] == a[1..] + [sep] + b;
      SplitAfterPiece(a[1..], b, sep);
      assert [a[0]] + a[1..] == a;
    }
  }

  /** Splitting a join of separator-free pieces gives the pieces back. */
  lemma {:induction false} SplitJoin(ws: seq<string>, sep: char)
    requires |ws| >= 1
    requires forall i :: 0 <= i < |ws| ==> sep !in ws[i]
    ensures Split(Join(ws, [sep]), sep) == ws
  {
    if |ws| == 1 {
      SplitNoSeparator(ws[0], sep);
    } else {
      SplitJoin(ws[1..], sep);
      assert Join(ws, [sep]) == ws[0] + [sep] + Join(ws[1..], [sep]);
      SplitAfterPiece(ws[0], Join(ws[1..], [sep]), sep);
      assert [ws[0]] + ws[1..] == ws;
    }
  }

  // ---------------------------------------------------------------------
  // Occurrence and replacement
  // ---------------------------------------------------------------------

  /** Python's `p in s`: `p` occurs as a contiguous run of `s`. */
  predicate Contains<T(==)>(s: seq<T>, p: seq<T>)
    ensures Contains(s, p) ==> |p| <= |s|
    decreases |s|
  {
    p <= s || (|s| > 0 && Contains(s[1..], p))
  }

  /** An occurrence at a known position is found by `Contains`. */
  lemma {:induction false} ContainsAt<T>(s: seq<T>, p: seq<T>, i: nat)
    requires i + |p| <= |s| && s[i..i + |p|] == p
    ensures Contains(s, p)
  {
    if i > 0 {
      assert s[1..][i - 1..i - 1 + |p|] == s[i..i + |p|];
      ContainsAt(s[1..], p, i - 1);
    } else {
      assert s[..|p|] == p;
    }
  }

  /** Whatever `Contains` finds is an occurrence at some position. */
  lemma {:induction false} ContainsWitness<T>(s: seq<T>, p: seq<T>) returns (i: nat)
    requires Contains(s, p)
    ensures i + |p| <= |s| && s[i..i + |p|] == p
    decreases |s|
  {
    if p <= s {
      i := 0;
    } else {
      var j := ContainsWitness(s[1..], p);
      assert s[j + 1..j + 1 + |p|] == s[1..][j..j + |p|];
      i := j + 1;
    }
  }

  /** Every element of an occurring pattern occurs in the text. */
  lemma ContainsHead<T>(s: seq<T>, p: seq<T>)
    ensures Contains(s, p) ==> forall x :: x in p ==> x in s
  {
    if Contains(s, p) {
      var i := ContainsWitness(s, p);
      forall x | x in p ensures x in s {
        var k :| 0 <= k < |p| && p[k] == x;
        assert s[i + k] == x;
      }
    }
  }

  /** `s.replace(p, q)`: every occurrence of `p`, scanning left to right
      without overlap, becomes `q`. */
  function ReplaceAll<T(==)>(s: seq<T>, p: seq<T>, q: seq<T>): seq<T>
    requires |p| > 0
    decreases |s|
  {
    if |s| < |p| then s
    else if p <= s then q + ReplaceAll(s[|p|..], p, q)
    else [s[0]] + ReplaceAll(s[1..], p, q)
  }

  /** Replacing a pattern that does not occur changes nothing. */
  lemma {:induction false} ReplaceAllAbsent<T>(s: seq<T>, p: seq<T>, q: seq<T>)
    requires |p| > 0 && !Contains(s, p)
    ensures ReplaceAll(s, p, q) == s
    decreases |s|
  {
    if |s| >= |p| {
      ReplaceAllAbsent(s[1..], p, q);
    }
  }

  /** When the pattern occurs, its replacement occurs in the result. */
  lemma {:induction false} ReplaceAllIntroduces<T>(s: seq<T>, p: seq<T>, q: seq<T>)
    requires |p| > 0 && Contains(s, p)
    ensures Contains(ReplaceAll(s, p, q), q)
    decreases |s|
  {
    var r := ReplaceAll(s, p, q);
    if p <= s {
      assert q <= r;
    } else {
      ReplaceAllIntroduces(s[1..], p, q);
      assert r[1..] == ReplaceAll(s[1..], p, q);
    }
  }

  /** Replacing a one-element pattern by nothing removes that element entirely. */
  lemma {:induction false} ReplaceAllDeletes<T>(s: seq<T>, x: T)
    ensures x !in ReplaceAll(s, [x], [])
    ensures forall y :: y != x ==> (y in ReplaceAll(s, [x], []) <==> y in s)
    decreases |s|
  {
    if |s| > 0 {
      ReplaceAllDeletes(s[1..], x);
      if s[0] != x {
        assert !([x] <= s);
      }
      assert forall y :: y in s <==> y == s[0] || y in s[1..];
    }
  }

  /** `p` occurs in `s` starting at index `j`. */
  predicate OccursAt<T(==)>(s: seq<T>, p: seq<T>, j: int) {
    0 <= j && j + |p| <= |s| && s[j..j + |p|] == p
  }

  /** An occurrence at any index is found by `Contains`. */
  lemma OccurrenceFound<T>(s: seq<T>, p: seq<T>, j: int)
    ensures OccursAt(s, p, j) ==> Contains(s, p)
  {
    if OccursAt(s, p, j) {
      ContainsAt(s, p, j);
    }
  }

  /** An occurrence in the second part of a concatenation is one in the whole. */
  lemma ContainsInSuffix<T>(a: seq<T>, b: seq<T>, m: seq<T>)
    requires Contains(b, m)
    ensures Contains(a + b, m)
  {
    var i := ContainsWitness(b, m);
    assert (a + b)[|a| + i..|a| + i + |m|] == b[i..i + |m|];
    ContainsAt(a + b, m, |a| + i);
  }

  /** No occurrence of `p` in `s` overlaps the stretch of length `n` at `i`. */
  predicate ApartFrom<T(==)>(s: seq<T>, p: seq<T>, i: int, n: int) {
    forall j :: OccursAt(s, p, j) ==> j + |p| <= i || i + n <= j
  }

  /** A prefix that no occurrence of the pattern overlaps survives the replacement. */
  lemma {:induction false} ReplaceAllKeepsPrefix<T>(s: seq<T>, p: seq<T>, q: seq<T>, m: seq<T>)
    requires |p| > 0 && m <= s && ApartFrom(s, p, 0, |m|)
    ensures m <= ReplaceAll(s, p, q)
    decreases |s|
  {
    if |s| >= |p| {
      if p <= s {
        assert OccursAt(s, p, 0);
        assert |m| == 0;
      } else if |m| > 0 {
        forall j | OccursAt(s[1..], p, j) ensures j + |p| <= 0 || |m| - 1 <= j {
          assert s[1..][j..j + |p|] == s[j + 1..j + 1 + |p|];
          assert OccursAt(s, p, j + 1);
        }
        ReplaceAllKeepsPrefix(s[1..], p, q, m[1..]);
        assert m == [s[0]] + m[1..];
      }
    }
  }

  /** An occurrence of `m` that no occurrence of the pattern overlaps survives
      the replacement. */
  lemma {:induction false} ReplaceAllKeeps<T>(s: seq<T>, p: seq<T>, q: seq<T>, m: seq<T>, i: int)
    requires |p| > 0 && OccursAt(s, m, i) && ApartFrom(s, p, i, |m|)
    ensures Contains(ReplaceAll(s, p, q), m)
    decreases |s|
  {
    var r := ReplaceAll(s, p, q);
    if |s| < |p| {
      ContainsAt(s, m, i);
    } else if i == 0 {
      assert m <= s;
      ReplaceAllKeepsPrefix(s, p, q, m);
      ContainsAt(r, m, 0);
    } else if p <= s {
      assert OccursAt(s, p, 0);
      DropKeepsApart(s, p, m, i, |p|);
      ReplaceAllKeeps(s[|p|..], p, q, m, i - |p|);
      ContainsInSuffix(q, ReplaceAll(s[|p|..], p, q), m);
    } else {
      DropKeepsApart(s, p, m, i, 1);
      ReplaceAllKeeps(s[1..], p, q, m, i - 1);
      ContainsInSuffix([s[0]], ReplaceAll(s[1..], p, q), m);
    }
  }

  /** Dropping a prefix that ends before an occurrence of `m` keeps that
      occurrence, and keeps it apart from the pattern. */
  lemma DropKeepsApart<T>(s: seq<T>, p: seq<T>, m: seq<T>, i: int, d: int)
    requires OccursAt(s, m, i) && ApartFrom(s, p, i, |m|) && 0 <= d <= i
    ensures OccursAt(s[d..], m, i - d) && ApartFrom(s[d..], p, i - d, |m|)
  {
    var rest := s[d..];
    assert rest[i - d..i - d + |m|] == s[i..i + |m|];
    forall j | OccursAt(rest, p, j) ensures j + |p| <= i - d || i - d + |m| <= j {
      assert rest[j..j + |p|] == s[j + d..j + d + |p|];
      assert OccursAt(s, p, j + d);
    }
  }

  /** Where occurrences of `p` and `m` share a position, they agree on it. */
  lemma SharedPosition<T>(s: seq<T>, p: seq<T>, j: int, m: seq<T>, i: int, x: int)
    ensures OccursAt(s, p, j) && OccursAt(s, m, i) && j <= x < j + |p| && i <= x < i + |m|
            ==> p[x - j] == m[x - i]
  {
    if OccursAt(s, p, j) && OccursAt(s, m, i) && j <= x < j + |p| && i <= x < i + |m| {
      assert p[x - j] == s[j..j + |p|][x - j] == s[x];
      assert m[x - i] == s[i..i + |m|][x - i] == s[x];
    }
  }

  /** An occurrence of `p` lying within an occurrence of `m` is one in `m`. */
  lemma InnerOccurrence<T>(s: seq<T>, p: seq<T>, j: int, m: seq<T>, i: int)
    ensures OccursAt(s, p, j) && OccursAt(s, m, i) && i <= j && j + |p| <= i + |m|
            ==> OccursAt(m, p, j - i)
  {
    if OccursAt(s, p, j) && OccursAt(s, m, i) && i <= j && j + |p| <= i + |m| {
      var inner, outer := m[j - i..j - i + |p|], s[j..j + |p|];
      forall t | 0 <= t < |p| ensures inner[t] == outer[t] {
        assert m[j - i + t] == s[i..i + |m|][j - i + t] == s[j + t];
      }
      assert inner == outer;
    }
  }

  /** No occurrence of `p` overlaps an occurrence of `m` when `m` has an
      element `m[k]` that `p` lacks, `p` does not end with an element of
      `m[..k]`, and does not start with one of `m[k + 1..]`. */
  lemma ApartByMiddle<T>(s: seq<T>, p: seq<T>, m: seq<T>, i: int, k: int)
    requires |p| > 0 && OccursAt(s, m, i) && 0 <= k < |m|
    requires forall t :: 0 <= t < |p| ==> p[t] != m[k]
    requires forall t :: 0 <= t < k ==> m[t] != p[|p| - 1]
    requires forall t :: k < t < |m| ==> m[t] != p[0]
    ensures ApartFrom(s, p, i, |m|)
  {
    forall j | OccursAt(s, p, j) ensures j + |p| <= i || i + |m| <= j {
      SharedPosition(s, p, j, m, i, i + k);
      SharedPosition(s, p, j, m, i, j + |p| - 1);
      SharedPosition(s, p, j, m, i, j);
    }
  }

  /** No occurrence of `p` overlaps an occurrence of `m` when neither end of
      `m` is an element of `p` and `p` does not occur inside `m`. */
  lemma ApartByEnds<T>(s: seq<T>, p: seq<T>, m: seq<T>, i: int)
    requires |p| > 0 && |m| > 0 && OccursAt(s, m, i)
    requires forall t :: 0 <= t < |p| ==> p[t] != m[0] && p[t] != m[|m| - 1]
    requires !Contains(m, p)
    ensures ApartFrom(s, p, i, |m|)
  {
    forall j | OccursAt(s, p, j) ensures j + |p| <= i || i + |m| <= j {
      SharedPosition(s, p, j, m, i, i);
      SharedPosition(s, p, j, m, i, i + |m| - 1);
      InnerOccurrence(s, p, j, m, i);
      OccurrenceFound(m, p, j - i);
    }
  }

  /** `s.replace(p, q, 1)`: only the leftmost occurrence of `p`, wherever it is,
      becomes `q`. */
  function ReplaceFirst<T(==)>(s: seq<T>, p: seq<T>, q: seq<T>): seq<T>
    requires |p| > 0
    decreases |s|
  {
    if p <= s then q + s[|p|..]
    else if |s| == 0 then s
    else [s[0]] + ReplaceFirst(s[1..], p, q)
  }

  /** A pattern at the very front is the one the first-only replacement takes. */
  lemma ReplaceFirstAtHead<T>(p: seq<T>, rest: seq<T>, q: seq<T>)
    requires |p| > 0
    ensures ReplaceFirst(p + rest, p, q) == q + rest
  {
    assert p <= p + rest;
    assert (p + rest)[|p|..] == rest;
  }

  /** Without an occurrence, the first-only replacement changes nothing. */
  lemma {:induction false} ReplaceFirstAbsent<T>(s: seq<T>, p: seq<T>, q: seq<T>)
    requires |p| > 0 && !Contains(s, p)
    ensures ReplaceFirst(s, p, q) == s
    decreases |s|
  {
    if |s| > 0 {
      ReplaceFirstAbsent(s[1..], p, q);
    }
  }

  /** With an occurrence, the first-only replacement splices `q` in at the
      leftmost one, `i`, and keeps everything before and after it. */
  lemma {:induction false} ReplaceFirstAt<T>(s: seq<T>, p: seq<T>, q: seq<T>) returns (i: nat)
    requires |p| > 0 && Contains(s, p)
    ensures i + |p| <= |s| && s[i..i + |p|] == p
    ensures forall j :: 0 <= j < i ==> !(p <= s[j..])
    ensures ReplaceFirst(s, p, q) == s[..i] + q + s[i + |p|..]
    decreases |s|
  {
    if p <= s {
      i := 0;
    } else {
      assert Contains(s[1..], p);
      var j := ReplaceFirstAt(s[1..], p, q);
      ReplaceFirstAfterHead(s, p, q, j);
      NoEarlierOccurrence(s, p, j);
      i := j + 1;
    }
  }

  /** The splice step of `ReplaceFirstAt` past a head that does not start an
      occurrence: the occurrence in the tail, shifted by one, is where `q`
      goes in the whole. */
  lemma ReplaceFirstAfterHead<T>(s: seq<T>, p: seq<T>, q: seq<T>, j: nat)
    requires |p| > 0 && |s| > 0 && !(p <= s)
    requires j + |p| <= |s[1..]| && s[1..][j..j + |p|] == p
    requires ReplaceFirst(s[1..], p, q) == s[1..][..j] + q + s[1..][j + |p|..]
    ensures j + 1 + |p| <= |s| && s[j + 1..j + 1 + |p|] == p
    ensures ReplaceFirst(s, p, q) == s[..j + 1] + q + s[j + 1 + |p|..]
  {
    var rest, i := s[1..], j + 1;
    assert s[i..i + |p|] == rest[j..j + |p|];
    assert ReplaceFirst(s, p, q) == [s[0]] + (rest[..j] + q + rest[j + |p|..]);
    assert s[..i] == [s[0]] + rest[..j];
    assert s[i + |p|..] == rest[j + |p|..];
  }

  /** No occurrence starts before the shifted leftmost one of the tail. */
  lemma NoEarlierOccurrence<T>(s: seq<T>, p: seq<T>, j: nat)
    requires |s| > 0 && !(p <= s) && j < |s|
    requires forall k :: 0 <= k < j ==> !(p <= s[1..][k..])
    ensures forall k :: 0 <= k < j + 1 ==> !(p <= s[k..])
  {
    forall k | 0 <= k < j + 1 ensures !(p <= s[k..]) {
      if k == 0 {
        assert s[k..] == s;
      } else {
        assert s[k..] == s[1..][k - 1..];
      }
    }
  }
}
