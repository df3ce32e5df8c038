/** Paths as sequences of components, with the `pathlib` operations the
    generator uses: name, suffix, stem, parent, right-anchored pattern
    matching, and the order `sorted` puts paths in. Paths are taken as
    already resolved (symbolic links followed). */
module Paths {
  import opened Text

  /** A resolved path, as its components. The root of an absolute path is an
      empty first component, so `["", "a"]` stands for `/a`. */
  type Path = seq<string>

  /** `str(path)`: the components joined by `/`. */
  function PathString(p: Path): string {
    Join(p, "/")
  }

  /** `path.name`: the last component. */
  function Name(p: Path): string {
    if |p| == 0 then "" else p[|p| - 1]
  }

  /** `path.parent`. */
  function Parent(p: Path): Path {
    if |p| == 0 then [] else p[..|p| - 1]
  }

  /** `s.rfind(c)`: the index of the last `c`, or -1. */
  function RFind(s: string, c: char): (i: int)
    ensures -1 <= i < |s|
    ensures i >= 0 ==> s[i] == c
    ensures forall k :: i < k < |s| ==> s[k] != c
  {
    if |s| == 0 then -1
    else if s[|s| - 1] == c then |s| - 1
    else RFind(s[..|s| - 1], c)
  }

  /** `PurePath.suffix` of a name: from its last dot on, unless that dot is
      the first or the last character. */
  function Suffix(name: string): string {
    var i := RFind(name, '.');
    if 0 < i < |name| - 1 then name[i..] else ""
  }

  /** `PurePath.stem` of a name: the name without its suffix. */
  function Stem(name: string): string {
    var i := RFind(name, '.');
    if 0 < i < |name| - 1 then name[..i] else name
  }

  /** A name has the suffix `.s` exactly when it ends in `.s` after at least
      one more character; its stem is then the name without those two. */
  lemma AssemblySuffix(name: string)
    ensures Suffix(name) == ".s" <==> |name| >= 3 && name[|name| - 2..] == ".s"
    ensures Suffix(name) == ".s" ==> Stem(name) + ".s" == name && |Stem(name)| == |name| - 2
  {
    var i := RFind(name, '.');
    if |name| >= 3 && name[|name| - 2..] == ".s" {
      assert name[|name| - 2] == '.' && name[|name| - 1] == 's';
      assert i == |name| - 2;
    }
    if 0 < i < |name| - 1 && name[i..] == ".s" {
      assert |name| - i == 2;
      assert name[..i] + name[i..] == name;
    }
  }

  /** `fnmatch(name, "*.s")`. */
  predicate MatchesStarDotS(name: string) {
    |name| >= 2 && name[|name| - 2..] == ".s"
  }

  /** `path.match` with a relative pattern made of the directories `dirs`
      followed by `*.s`: compared component by component from the right. */
  predicate MatchesAsmUnder(p: Path, dirs: seq<string>) {
    |p| >= |dirs| + 1 && p[|p| - 1 - |dirs|..|p| - 1] == dirs && MatchesStarDotS(Name(p))
  }

  /** A path matching a longer pattern also matches every right part of it. */
  lemma MatchesShorterPattern(p: Path, outer: seq<string>, dirs: seq<string>)
    requires MatchesAsmUnder(p, outer + dirs)
    ensures MatchesAsmUnder(p, dirs)
  {
    var n := |outer + dirs|;
    assert p[|p| - 1 - |dirs|..|p| - 1] == p[|p| - 1 - n..|p| - 1][|outer|..];
  }

  // ---------------------------------------------------------------------
  // The order of `sorted(paths)`
  // ---------------------------------------------------------------------

  /** Python's `<` on `str`: lexicographic by code point. */
  predicate StrLess(a: string, b: string) {
    |b| > 0 && (|a| == 0 || a[0] < b[0] || (a[0] == b[0] && StrLess(a[1..], b[1..])))
  }

  /** Python's `<` on paths: lexicographic over the components. */
  predicate PathLess(a: Path, b: Path) {
    |b| > 0 && (|a| == 0 || StrLess(a[0], b[0]) || (a[0] == b[0] && PathLess(a[1..], b[1..])))
  }

  predicate PathLe(a: Path, b: Path) {
    a == b || PathLess(a, b)
  }

  lemma {:induction false} StrLessIrreflexive(a: string)
    ensures !StrLess(a, a)
  {
    if |a| > 0 {
      StrLessIrreflexive(a[1..]);
    }
  }

  lemma {:induction false} StrLessTransitive(a: string, b: string, c: string)
    requires StrLess(a, b) && StrLess(b, c)
    ensures StrLess(a, c)
  {
    if |a| > 0 && a[0] == b[0] && b[0] == c[0] {
      StrLessTransitive(a[1..], b[1..], c[1..]);
    }
  }

  lemma {:induction false} StrLessTotal(a: string, b: string)
    requires a != b
    ensures StrLess(a, b) || StrLess(b, a)
  {
    if |a| > 0 && |b| > 0 && a[0] == b[0] {
      assert a == [a[0]] + a[1..] && b == [b[0]] + b[1..];
      StrLessTotal(a[1..], b[1..]);
    }
  }

  lemma {:induction false} PathLessIrreflexive(a: Path)
    ensures !PathLess(a, a)
  {
    if |a| > 0 {
      StrLessIrreflexive(a[0]);
      PathLessIrreflexive(a[1..]);
    }
  }

  lemma {:induction false} PathLessTransitive(a: Path, b: Path, c: Path)
    requires PathLess(a, b) && PathLess(b, c)
    ensures PathLess(a, c)
  {
    if |a| > 0 {
      if StrLess(a[0], b[0]) && StrLess(b[0], c[0]) {
        StrLessTransitive(a[0], b[0], c[0]);
      } else if a[0] == b[0] && b[0] == c[0] {
        PathLessTransitive(a[1..], b[1..], c[1..]);
      }
    }
  }

  lemma {:induction false} PathLessTotal(a: Path, b: Path)
    requires a != b
    ensures PathLess(a, b) || PathLess(b, a)
  {
    if |a| > 0 && |b| > 0 {
      if a[0] == b[0] {
        assert a == [a[0]] + a[1..] && b == [b[0]] + b[1..];
        PathLessTotal(a[1..], b[1..]);
      } else {
        StrLessTotal(a[0], b[0]);
      }
    }
  }

  lemma PathLeTransitive(a: Path, b: Path, c: Path)
    requires PathLe(a, b) && PathLe(b, c)
    ensures PathLe(a, c)
  {
    if PathLess(a, b) && PathLess(b, c) {
      PathLessTransitive(a, b, c);
    }
  }

  /** The order is a total order: any two distinct paths compare one way only. */
  lemma PathOrderTotal(a: Path, b: Path)
    ensures PathLe(a, b) || PathLe(b, a)
    ensures PathLe(a, b) && PathLe(b, a) ==> a == b
  {
    if a != b {
      PathLessTotal(a, b);
      if PathLess(a, b) && PathLess(b, a) {
        PathLessTransitive(a, b, a);
        PathLessIrreflexive(a);
      }
    }
  }

  predicate Sorted(ps: seq<Path>) {
    forall i, j :: 0 <= i < j < |ps| ==> PathLe(ps[i], ps[j])
  }

  /** A path no greater than the head of a sorted sequence is no greater than any of it. */
  lemma BelowHead(x: Path, ps: seq<Path>)
    requires Sorted(ps) && |ps| > 0 && PathLe(x, ps[0])
    ensures forall j :: 0 <= j < |ps| ==> PathLe(x, ps[j])
  {
    forall j | 0 < j < |ps| ensures PathLe(x, ps[j]) {
      PathLeTransitive(x, ps[0], ps[j]);
    }
  }

  /** Inserts `x` in front of the first element it is no greater than. */
  function Insert(x: Path, ps: seq<Path>): (r: seq<Path>)
    ensures multiset(r) == multiset(ps) + multiset{x}
  {
    if |ps| == 0 then [x]
    else if PathLe(x, ps[0]) then [x] + ps
    else
      assert ps == [ps[0]] + ps[1..];
      [ps[0]] + Insert(x, ps[1..])
  }

  /** A path no greater than anything in a sorted sequence can go in front of it. */
  lemma ConsSorted(x: Path, ps: seq<Path>)
    requires Sorted(ps)
    requires forall y :: y in ps ==> PathLe(x, y)
    ensures Sorted([x] + ps)
  {
    var r := [x] + ps;
    forall i, j | 0 <= i < j < |r| ensures PathLe(r[i], r[j]) {
      assert r[j] == ps[j - 1];
      if i > 0 {
        assert r[i] == ps[i - 1];
      }
    }
  }

  /** Inserting into a sorted sequence keeps it sorted. */
  lemma {:induction false} InsertSorted(x: Path, ps: seq<Path>)
    requires Sorted(ps)
    ensures Sorted(Insert(x, ps))
  {
    if |ps| > 0 {
      if PathLe(x, ps[0]) {
        BelowHead(x, ps);
        ConsSorted(x, ps);
      } else {
        PathOrderTotal(x, ps[0]);
        var rest := Insert(x, ps[1..]);
        InsertSorted(x, ps[1..]);
        forall y | y in rest ensures PathLe(ps[0], y) {
          assert y in multiset(rest);
          assert y == x || y in ps[1..];
        }
        ConsSorted(ps[0], rest);
      }
    }
  }

  /** `sorted(paths)`: the same paths, in ascending order. */
  function Sort(ps: seq<Path>): (r: seq<Path>)
    ensures multiset(r) == multiset(ps)
    ensures Sorted(r)
  {
    if |ps| == 0 then []
    else
      assert ps == [ps[0]] + ps[1..];
      InsertSorted(ps[0], Sort(ps[1..]));
      Insert(ps[0], Sort(ps[1..]))
  }

  lemma HeadIsLeast(a: seq<Path>, x: Path)
    requires Sorted(a) && x in multiset(a)
    ensures |a| > 0 && PathLe(a[0], x)
  {
    var i :| 0 <= i < |a| && a[i] == x;
    if i > 0 {
      assert PathLe(a[0], a[i]);
    }
  }

  lemma TailMultiset(a: seq<Path>)
    requires |a| > 0
    ensures multiset(a[1..]) == multiset(a) - multiset{a[0]}
  {
    assert a == [a[0]] + a[1..];
  }

  /** Two sorted arrangements of the same paths are the same sequence, so
      `Sort` agrees with any sorting that yields an ascending permutation. */
  lemma {:induction false} SortedPermutationUnique(a: seq<Path>, b: seq<Path>)
    requires Sorted(a) && Sorted(b) && multiset(a) == multiset(b)
    ensures a == b
  {
    if |a| == 0 {
      assert |multiset(b)| == 0;
    } else {
      HeadIsLeast(b, a[0]);
      HeadIsLeast(a, b[0]);
      PathOrderTotal(a[0], b[0]);
      TailMultiset(a);
      TailMultiset(b);
      SortedPermutationUnique(a[1..], b[1..]);
      assert a == [a[0]] + a[1..] && b == [b[0]] + b[1..];
    }
  }
}
