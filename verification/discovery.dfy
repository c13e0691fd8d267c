/** `discover_files` (src/main.rs:362-386): a single supported file, or every
    supported regular file the directory walk yields, sorted in path order with
    duplicates removed. */
module Discovery {
  import opened Basics
  import opened Paths

  /** The extensions the tool accepts, compared after lower-casing. */
  const SupportedExts: seq<string> := ["png", "jpg", "jpeg", "bmp", "tiff", "tif", "webp", "heic", "heif"]

  predicate IsSupported(p: Path) {
    FileName(p).Some? && Extension(FileName(p).value).Some? &&
    Lower(Extension(FileName(p).value).value) in SupportedExts
  }

  /** What the directory walk yields: an entry (with whether it is a regular
      file, following links) or an error, which the source skips. */
  datatype WalkItem = Entry(path: Path, isFile: bool) | WalkError

  // ---------------------------------------------------------------------------
  // Rust's order on paths: component by component, each component compared
  // character by character; a proper prefix comes first.

  predicate NameLess(a: string, b: string)
    decreases |a|
  {
    if a == [] then b != []
    else b != [] && (a[0] < b[0] || (a[0] == b[0] && NameLess(a[1..], b[1..])))
  }

  lemma {:induction false} NameLessIrreflexive(a: string)
    ensures !NameLess(a, a)
    decreases |a|
  {
    if a != [] {
      NameLessIrreflexive(a[1..]);
    }
  }

  lemma {:induction false} NameLessTransitive(a: string, b: string, c: string)
    requires NameLess(a, b) && NameLess(b, c)
    ensures NameLess(a, c)
    decreases |a|
  {
    if a != [] && a[0] == b[0] && b[0] == c[0] {
      NameLessTransitive(a[1..], b[1..], c[1..]);
    }
  }

  lemma {:induction false} NameLessTotal(a: string, b: string)
    ensures a == b || NameLess(a, b) || NameLess(b, a)
    decreases |a|
  {
    if a != [] && b != [] && a[0] == b[0] {
      NameLessTotal(a[1..], b[1..]);
      if a[1..] == b[1..] {
        assert a == [a[0]] + a[1..] && b == [b[0]] + b[1..];
      }
    }
  }

  predicate PathLess(p: Path, q: Path)
    decreases |p|
  {
    if p == [] then q != []
    else q != [] && (NameLess(p[0], q[0]) || (p[0] == q[0] && PathLess(p[1..], q[1..])))
  }

  lemma {:induction false} PathLessIrreflexive(p: Path)
    ensures !PathLess(p, p)
    decreases |p|
  {
    if p != [] {
      NameLessIrreflexive(p[0]);
      PathLessIrreflexive(p[1..]);
    }
  }

  lemma {:induction false} PathLessTransitive(p: Path, q: Path, r: Path)
    requires PathLess(p, q) && PathLess(q, r)
    ensures PathLess(p, r)
    decreases |p|
  {
    if p != [] {
      NameLessIrreflexive(q[0]);
      if p[0] == q[0] && q[0] == r[0] {
        PathLessTransitive(p[1..], q[1..], r[1..]);
      } else if NameLess(p[0], q[0]) && NameLess(q[0], r[0]) {
        NameLessTransitive(p[0], q[0], r[0]);
      }
    }
  }

  lemma {:induction false} PathLessTotal(p: Path, q: Path)
    ensures p == q || PathLess(p, q) || PathLess(q, p)
    decreases |p|
  {
    if p != [] && q != [] {
      NameLessTotal(p[0], q[0]);
      if p[0] == q[0] {
        PathLessTotal(p[1..], q[1..]);
        if p[1..] == q[1..] {
          assert p == [p[0]] + p[1..] && q == [q[0]] + q[1..];
        }
      }
    }
  }

  predicate PathLessEq(p: Path, q: Path) {
    p == q || PathLess(p, q)
  }

  /** Each path is at most the next one. */
  predicate Sorted(s: seq<Path>) {
    forall i :: 0 < i < |s| ==> PathLessEq(s[i - 1], s[i])
  }

  /** Each path is strictly below the next one. */
  predicate StrictlySorted(s: seq<Path>) {
    forall i :: 0 < i < |s| ==> PathLess(s[i - 1], s[i])
  }

  // ---------------------------------------------------------------------------
  // `sort` and `dedup`.

  function Insert(x: Path, s: seq<Path>): (r: seq<Path>)
    requires Sorted(s)
    ensures Sorted(r) && multiset(r) == multiset(s) + multiset{x}
    ensures s != [] ==> r[0] == x || r[0] == s[0]
    ensures s == [] ==> r == [x]
  {
    if s == [] then [x]
    else if PathLessEq(x, s[0]) then [x] + s
    else
      PathLessTotal(x, s[0]);
      var rest := Insert(x, s[1..]);
      assert s == [s[0]] + s[1..];
      [s[0]] + rest
  }

  /** `Vec::sort`: a sorted permutation of the input. Because the order is total,
      there is only one (`SortedPermutationUnique`), so any sorting algorithm
      gives this answer. */
  function Sort(s: seq<Path>): (r: seq<Path>)
    ensures Sorted(r) && multiset(r) == multiset(s)
  {
    if s == [] then []
    else
      assert s == [s[0]] + s[1..];
      Insert(s[0], Sort(s[1..]))
  }

  /** In a sorted sequence the first path is at most every other one. */
  lemma {:induction false} SortedHeadIsLeast(s: seq<Path>, j: int)
    requires Sorted(s) && 0 <= j < |s|
    ensures PathLessEq(s[0], s[j])
  {
    if j > 0 {
      SortedHeadIsLeast(s, j - 1);
      if s[0] != s[j - 1] && s[j - 1] != s[j] {
        PathLessTransitive(s[0], s[j - 1], s[j]);
      }
    }
  }

  /** Two sorted arrangements of the same paths are the same sequence. */
  lemma {:induction false} SortedPermutationUnique(a: seq<Path>, b: seq<Path>)
    requires Sorted(a) && Sorted(b) && multiset(a) == multiset(b)
    ensures a == b
    decreases |a|
  {
    if a != [] {
      assert |b| == |a| by { assert |multiset(a)| == |multiset(b)|; }
      SortedSameHead(a, b);
      MultisetOfTail(a);
      MultisetOfTail(b);
      SortedPermutationUnique(a[1..], b[1..]);
      assert a == [a[0]] + a[1..] && b == [b[0]] + b[1..];
    }
  }

  /** Two non-empty sorted arrangements of the same paths start alike. */
  lemma SortedSameHead(a: seq<Path>, b: seq<Path>)
    requires Sorted(a) && Sorted(b) && multiset(a) == multiset(b) && a != [] && b != []
    ensures a[0] == b[0]
  {
    assert a[0] in multiset(b);
    var j :| 0 <= j < |b| && b[j] == a[0];
    assert b[0] in multiset(a);
    var i :| 0 <= i < |a| && a[i] == b[0];
    SortedHeadIsLeast(a, i);
    SortedHeadIsLeast(b, j);
    if a[0] != b[0] {
      PathLessIrreflexive(a[0]);
      PathLessTransitive(a[0], b[0], a[0]);
    }
  }

  lemma MultisetOfTail(a: seq<Path>)
    requires a != []
    ensures multiset(a[1..]) == multiset(a) - multiset{a[0]}
  {
    assert a == [a[0]] + a[1..];
  }

  /** `Vec::dedup`: drops every element equal to the one before it. */
  function Dedup(s: seq<Path>): (r: seq<Path>)
    ensures |r| <= |s|
    ensures forall p :: p in r <==> p in s
    ensures s != [] ==> r != [] && r[0] == s[0]
    ensures Sorted(s) ==> StrictlySorted(r)
  {
    if |s| <= 1 then s
    else if s[0] == s[1] then Dedup(s[1..])
    else
      var rest := Dedup(s[1..]);
      assert s == [s[0]] + s[1..];
      [s[0]] + rest
  }

  /** A strictly sorted sequence has no repeated path. */
  lemma {:induction false} StrictlySortedDistinct(s: seq<Path>, i: int, j: int)
    requires StrictlySorted(s) && 0 <= i < j < |s|
    ensures PathLess(s[i], s[j]) && s[i] != s[j]
    decreases j - i
  {
    if j == i + 1 {
      assert PathLess(s[j - 1], s[j]);
    } else {
      StrictlySortedDistinct(s, i, j - 1);
      PathLessTransitive(s[i], s[j - 1], s[j]);
    }
    if s[i] == s[j] {
      PathLessIrreflexive(s[i]);
    }
  }

  /** The paths the walk reports as supported regular files, in walk order. */
  function SupportedFiles(walk: seq<WalkItem>): (files: seq<Path>)
    ensures forall p :: p in files <==> Entry(p, true) in walk && IsSupported(p)
  {
    if walk == [] then []
    else
      var rest := SupportedFiles(walk[..|walk| - 1]);
      assert walk == walk[..|walk| - 1] + [walk[|walk| - 1]];
      match walk[|walk| - 1]
      case Entry(p, isFile) => if isFile && IsSupported(p) then rest + [p] else rest
      case WalkError => rest
  }

  /** `discover_files`: for a file input, the file itself if its extension is
      supported; for a directory, the supported regular files of the walk,
      strictly sorted (so without duplicates). */
  method DiscoverFiles(input: Path, inputIsFile: bool, walk: seq<WalkItem>) returns (files: seq<Path>)
    ensures inputIsFile ==> files == if IsSupported(input) then [input] else []
    ensures !inputIsFile ==> StrictlySorted(files)
    ensures !inputIsFile ==> forall p :: p in files <==> Entry(p, true) in walk && IsSupported(p)
    ensures !inputIsFile ==> files == Dedup(Sort(SupportedFiles(walk)))
  {
    if inputIsFile {
      if IsSupported(input) {
        return [input];
      }
      return [];
    }
    files := [];
    var i := 0;
    while i < |walk|
      invariant 0 <= i <= |walk|
      invariant files == SupportedFiles(walk[..i])
    {
      assert walk[..i + 1][..i] == walk[..i];
      match walk[i] {
        case Entry(p, isFile) =>
          if isFile && IsSupported(p) {
            files := files + [p];
          }
        case WalkError =>
      }
      i := i + 1;
    }
    assert walk[..i] == walk;
    var sorted := Sort(files);
    assert forall p :: p in sorted <==> p in files by {
      forall p ensures p in sorted <==> p in files {
        assert p in sorted <==> p in multiset(sorted);
        assert p in files <==> p in multiset(files);
      }
    }
    files := Dedup(sorted);
  }
}
