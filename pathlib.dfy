/**
 * The parts of Python's pathlib the pipeline relies on: a path's final component
 * and its suffix and stem, lower-casing, Python's ordering of strings (which is how
 * `sorted` orders the children of one directory), and a directory tree given by
 * its listings (`is_dir`, `iterdir`).
 *
 * A path is the string str(path) prints: pathlib's normalised form, which has no
 * empty, doubled or trailing separators (except the root "/") and is "." for the
 * current directory.
 */
module Pathlib {

  type Path = string

  /** str.rfind for one character: the position of the last c in s, or -1. */
  function RFind(s: string, c: char): (i: int)
    ensures -1 <= i < |s|
    ensures 0 <= i ==> s[i] == c
    decreases |s|
  {
    if s == [] then -1
    else if s[|s| - 1] == c then |s| - 1
    else RFind(s[..|s| - 1], c)
  }

  /** RFind finds the last occurrence: none of c follows it. */
  lemma {:induction false} RFindIsLast(s: string, c: char)
    ensures forall k :: RFind(s, c) < k < |s| ==> s[k] != c
    decreases |s|
  {
    if s != [] && s[|s| - 1] != c {
      RFindIsLast(s[..|s| - 1], c);
    }
  }

  /** PurePath.name: the text after the last separator ("" for "." and "/"). */
  function Name(p: Path): string {
    if p == "." then "" else p[RFind(p, '/') + 1..]
  }

  /** PurePath.stem: the name without its suffix. */
  function Stem(name: string): string {
    var i := RFind(name, '.');
    if 0 < i < |name| - 1 then name[..i] else name
  }

  /**
   * PurePath.suffix: from the last dot to the end of the name, unless that dot
   * starts the name or ends it, in which case there is no suffix.
   */
  function Suffix(name: string): string {
    var i := RFind(name, '.');
    if 0 < i < |name| - 1 then name[i..] else []
  }

  /**
   * Stem and suffix split the name; a suffix is a dot and at least one more
   * character, none of them a dot, and leaves a non-empty stem.
   */
  lemma StemSuffixSplit(name: string)
    ensures Stem(name) + Suffix(name) == name
    ensures Suffix(name) == [] || (2 <= |Suffix(name)| && Suffix(name)[0] == '.' && Stem(name) != [])
    ensures Suffix(name) != [] ==> '.' !in Suffix(name)[1..]
  {
    var i := RFind(name, '.');
    RFindIsLast(name, '.');
    if 0 < i < |name| - 1 {
      assert Suffix(name)[1..] == name[i + 1..];
    }
  }

  /** A path's name never contains a separator. */
  lemma NameHasNoSeparator(p: Path)
    ensures '/' !in Name(p)
  {
    if p != "." {
      var i := RFind(p, '/');
      RFindIsLast(p, '/');
      assert Name(p) == p[i + 1..];
    }
  }

  /** The suffix is decided by the last dot of the name alone. */
  lemma SuffixAtLastDot(name: string, i: int)
    requires 0 <= i < |name| && name[i] == '.'
    requires forall k :: i < k < |name| ==> name[k] != '.'
    ensures Suffix(name) == if 0 < i < |name| - 1 then name[i..] else []
    ensures Stem(name) == if 0 < i < |name| - 1 then name[..i] else name
  {
    var r := RFind(name, '.');
    RFindIsLast(name, '.');
    assert r == i;
  }

  /** A name without a dot has no suffix and is its own stem. */
  lemma NoDotNoSuffix(name: string)
    requires '.' !in name
    ensures Suffix(name) == [] && Stem(name) == name
  {
    var r := RFind(name, '.');
    assert r == -1;
  }

  function LowerChar(c: char): char {
    if 'A' <= c <= 'Z' then (c as int + 32) as char else c
  }

  /** str.lower() on ASCII text. */
  function Lower(s: string): (r: string)
    ensures |r| == |s|
    ensures forall i :: 0 <= i < |s| ==> r[i] == LowerChar(s[i])
  {
    if s == [] then [] else [LowerChar(s[0])] + Lower(s[1..])
  }

  /** What `dir / name` prints before the name. */
  function ChildPrefix(dir: Path): string {
    if dir == "." then ""
    else if |dir| > 0 && dir[|dir| - 1] == '/' then dir
    else dir + "/"
  }

  /** str() of a path is the path's own text. */
  function str(p: Path): string {
    p
  }

  /** The path iterdir() yields for the entry `name` of directory `dir`. */
  function Child(dir: Path, name: string): Path {
    ChildPrefix(dir) + name
  }

  /** Two entries of one directory have the same path only when they have the same name. */
  lemma ChildInjective(dir: Path, a: string, b: string)
    ensures Child(dir, a) == Child(dir, b) ==> a == b
  {
    var pre := ChildPrefix(dir);
    if Child(dir, a) == Child(dir, b) {
      assert a == Child(dir, a)[|pre|..];
      assert b == Child(dir, b)[|pre|..];
    }
  }

  /** PurePath.parent: the path up to the last separator; "." when there is none. */
  function Parent(p: Path): Path {
    var i := RFind(p, '/');
    if i < 0 then "." else if i == 0 then "/" else p[..i]
  }

  /** What pathlib prints: no doubled separator and no leading "./". */
  predicate Normalised(p: Path) {
    (forall k :: 0 < k < |p| && p[k] == '/' ==> p[k - 1] != '/') &&
    !(2 <= |p| && p[0] == '.' && p[1] == '/')
  }

  /** A path with a name is its parent joined with that name. */
  lemma ParentChild(p: Path)
    requires Name(p) != [] && Normalised(p)
    ensures Child(Parent(p), Name(p)) == p
  {
    var i := RFind(p, '/');
    RFindIsLast(p, '/');
    if i < 0 {
      assert p[0..] == p;
    } else if i == 0 {
      assert "/" + p[1..] == p;
    } else {
      assert p[i] == '/';
      assert p[i - 1] != '/';
      assert ChildPrefix(p[..i]) == p[..i] + "/";
      assert p[..i] + "/" + p[i + 1..] == p;
    }
  }

  /** What a directory entry's name can be: never empty, ".", ".." or containing a separator. */
  predicate EntryName(n: string) {
    n != [] && n != "." && n != ".." && '/' !in n
  }

  /** The name of a child path is the entry it was made from. */
  lemma NameOfChild(dir: Path, n: string)
    requires EntryName(n)
    ensures Name(Child(dir, n)) == n
  {
    var p := Child(dir, n);
    var pre := ChildPrefix(dir);
    RFindIsLast(p, '/');
    assert p == pre + n;
    if pre == [] {
      assert p == n;
      assert RFind(p, '/') == -1;
    } else {
      assert pre[|pre| - 1] == '/';
      assert p[|pre| - 1] == '/';
      assert RFind(p, '/') == |pre| - 1;
      assert p[|pre|..] == n;
    }
  }

  // Python's ordering of str values: code point by code point, a proper prefix first.

  predicate Below(a: string, b: string)
    decreases |a|
  {
    if a == [] then true
    else if b == [] then false
    else if a[0] != b[0] then a[0] < b[0]
    else Below(a[1..], b[1..])
  }

  lemma {:induction false} BelowReflexive(a: string)
    ensures Below(a, a)
    decreases |a|
  {
    if a != [] {
      BelowReflexive(a[1..]);
    }
  }

  lemma {:induction false} BelowTotal(a: string, b: string)
    ensures Below(a, b) || Below(b, a)
    decreases |a|
  {
    if a != [] && b != [] && a[0] == b[0] {
      BelowTotal(a[1..], b[1..]);
    }
  }

  lemma {:induction false} BelowAntisymmetric(a: string, b: string)
    requires Below(a, b) && Below(b, a)
    ensures a == b
    decreases |a|
  {
    if a != [] {
      BelowAntisymmetric(a[1..], b[1..]);
      assert a == [a[0]] + a[1..] && b == [b[0]] + b[1..];
    }
  }

  lemma {:induction false} BelowTransitive(a: string, b: string, c: string)
    requires Below(a, b) && Below(b, c)
    ensures Below(a, c)
    decreases |a|
  {
    if a != [] && b != [] && c != [] && a[0] == b[0] && b[0] == c[0] {
      BelowTransitive(a[1..], b[1..], c[1..]);
    }
  }

  /** Prefixing two strings with the same text does not change their order. */
  lemma {:induction false} BelowCommonPrefix(p: string, a: string, b: string)
    ensures Below(p + a, p + b) == Below(a, b)
    decreases |p|
  {
    if p != [] {
      assert (p + a)[1..] == p[1..] + a;
      assert (p + b)[1..] == p[1..] + b;
      BelowCommonPrefix(p[1..], a, b);
    } else {
      assert p + a == a && p + b == b;
    }
  }

  predicate Sorted(s: seq<string>) {
    forall i, j :: 0 <= i < j < |s| ==> Below(s[i], s[j])
  }

  lemma InsertHeadBelow(h: string, x: string, rest: seq<string>, r: seq<string>)
    requires Below(h, x)
    requires forall k :: 0 <= k < |rest| ==> Below(h, rest[k])
    requires multiset(r) == multiset(rest) + multiset{x}
    ensures forall k :: 0 <= k < |r| ==> Below(h, r[k])
  {
    forall k | 0 <= k < |r|
      ensures Below(h, r[k])
    {
      assert r[k] in multiset(r);
      if r[k] != x {
        assert r[k] in multiset(rest);
        var m :| 0 <= m < |rest| && rest[m] == r[k];
      }
    }
  }

  /** One step of insertion sort: x placed before the first element it is below. */
  function Insert(x: string, s: seq<string>): (r: seq<string>)
    requires Sorted(s)
    ensures Sorted(r)
    ensures multiset(r) == multiset(s) + multiset{x}
    decreases |s|
  {
    if s == [] then [x]
    else if Below(x, s[0]) then
      assert forall k :: 0 <= k < |s| ==> Below(x, s[k]) by {
        forall k | 0 <= k < |s| ensures Below(x, s[k]) {
          if k > 0 { BelowTransitive(x, s[0], s[k]); }
        }
      }
      [x] + s
    else
      var rest := Insert(x, s[1..]);
      assert s == [s[0]] + s[1..];
      BelowTotal(x, s[0]);
      InsertHeadBelow(s[0], x, s[1..], rest);
      [s[0]] + rest
  }

  /** `sorted` of a list of names. */
  function SortNames(s: seq<string>): (r: seq<string>)
    ensures Sorted(r)
    ensures multiset(r) == multiset(s)
    decreases |s|
  {
    if s == [] then []
    else
      assert s == s[..|s| - 1] + [s[|s| - 1]];
      Insert(s[|s| - 1], SortNames(s[..|s| - 1]))
  }

  /** The head of a sorted list is below every element of the list. */
  lemma SortedHeadLeast(a: seq<string>, x: string)
    requires Sorted(a) && x in multiset(a)
    ensures a != [] && Below(a[0], x)
  {
    var i :| 0 <= i < |a| && a[i] == x;
    if i == 0 { BelowReflexive(x); }
  }

  lemma SortedTail(a: seq<string>)
    requires Sorted(a) && a != []
    ensures Sorted(a[1..])
  {
    forall i, j | 0 <= i < j < |a| - 1
      ensures Below(a[1..][i], a[1..][j])
    {
      assert a[1..][i] == a[i + 1] && a[1..][j] == a[j + 1];
    }
  }

  /** The head of a sorted list is below everything after it. */
  lemma SortedHeadBelowRest(a: seq<string>)
    requires Sorted(a) && a != []
    ensures forall y :: y in a[1..] ==> Below(a[0], y)
  {
    forall y | y in a[1..]
      ensures Below(a[0], y)
    {
      var k :| 0 <= k < |a[1..]| && a[1..][k] == y;
      assert a[k + 1] == y;
    }
  }

  /** A sorted list stays sorted under a new head below all of it. */
  lemma SortedCons(x: string, rest: seq<string>)
    requires Sorted(rest)
    requires forall y :: y in rest ==> Below(x, y)
    ensures Sorted([x] + rest)
  {
    var r := [x] + rest;
    forall i, j | 0 <= i < j < |r|
      ensures Below(r[i], r[j])
    {
      assert r[j] == rest[j - 1];
      if i > 0 {
        assert r[i] == rest[i - 1];
      }
    }
  }

  /** Dropping the head of a list drops one occurrence of it from the multiset. */
  lemma MultisetTail(a: seq<string>)
    requires a != []
    ensures multiset(a[1..]) == multiset(a) - multiset{a[0]}
  {
    assert a == [a[0]] + a[1..];
  }

  /** Two sorted arrangements of one list start alike and agree on the rest as multisets. */
  lemma SortedSameHead(a: seq<string>, b: seq<string>)
    requires Sorted(a) && Sorted(b) && a != []
    requires multiset(a) == multiset(b)
    ensures b != [] && a[0] == b[0]
    ensures multiset(a[1..]) == multiset(b[1..])
  {
    assert a[0] in multiset(a);
    SortedHeadLeast(b, a[0]);
    assert b[0] in multiset(b);
    SortedHeadLeast(a, b[0]);
    BelowAntisymmetric(a[0], b[0]);
    MultisetTail(a);
    MultisetTail(b);
  }

  /**
   * A sorted arrangement of a list is unique, so SortNames agrees with Python's
   * `sorted` whatever algorithm either uses.
   */
  lemma {:induction false} SortedUnique(a: seq<string>, b: seq<string>)
    requires Sorted(a) && Sorted(b)
    requires multiset(a) == multiset(b)
    ensures a == b
    decreases |a|
  {
    if a == [] {
      assert |b| == |multiset(b)| == 0;
    } else {
      SortedSameHead(a, b);
      SortedTail(a);
      SortedTail(b);
      SortedUnique(a[1..], b[1..]);
      assert a == [a[0]] + a[1..] && b == [b[0]] + b[1..];
    }
  }

  /** A directory tree, given by the entry names each directory lists. */
  datatype FileSystem = FileSystem(listings: map<Path, seq<string>>)

  /** Path.is_dir(). */
  predicate IsDir(fs: FileSystem, p: Path) {
    p in fs.listings
  }

  function ChildPaths(dir: Path, names: seq<string>): (r: seq<Path>)
    ensures |r| == |names|
    ensures forall k :: 0 <= k < |names| ==> r[k] == Child(dir, names[k])
  {
    seq(|names|, k requires 0 <= k < |names| => Child(dir, names[k]))
  }

  /** sorted(dir.iterdir()): the directory's entries as paths, in Python's order. */
  function SortedChildren(fs: FileSystem, dir: Path): (r: seq<Path>)
    requires IsDir(fs, dir)
  {
    ChildPaths(dir, SortNames(fs.listings[dir]))
  }

  /** Every entry appears once per listing, and the paths are in ascending order. */
  lemma SortedChildrenSpec(fs: FileSystem, dir: Path)
    requires IsDir(fs, dir)
    ensures Sorted(SortedChildren(fs, dir))
    ensures |SortedChildren(fs, dir)| == |fs.listings[dir]|
    ensures forall p :: p in SortedChildren(fs, dir) <==>
              exists n :: n in fs.listings[dir] && p == Child(dir, n)
  {
    var names := SortNames(fs.listings[dir]);
    var r := SortedChildren(fs, dir);
    forall i, j | 0 <= i < j < |r|
      ensures Below(r[i], r[j])
    {
      BelowCommonPrefix(ChildPrefix(dir), names[i], names[j]);
    }
    assert |names| == |multiset(names)| == |multiset(fs.listings[dir])| == |fs.listings[dir]|;
    forall p
      ensures p in r <==> exists n :: n in fs.listings[dir] && p == Child(dir, n)
    {
      if p in r {
        var k :| 0 <= k < |r| && r[k] == p;
        assert names[k] in multiset(names);
      }
      if exists n :: n in fs.listings[dir] && p == Child(dir, n) {
        var n :| n in fs.listings[dir] && p == Child(dir, n);
        assert n in multiset(fs.listings[dir]);
        assert n in multiset(names);
        var k :| 0 <= k < |names| && names[k] == n;
        assert r[k] == p;
      }
    }
  }

  /** A path with a name is not its own parent. */
  lemma ParentDiffers(p: Path)
    requires Name(p) != []
    ensures Parent(p) != p
  {
  }

  /**
   * A directory `dir` that did not exist, created empty and entered as `name` in
   * the listing of `parent` when that directory exists.
   */
  function NewDir(fs: FileSystem, dir: Path, parent: Path, name: string): (r: FileSystem)
    requires !IsDir(fs, dir)
    ensures IsDir(r, dir) && r.listings[dir] == []
    ensures forall d :: d != dir ==> (IsDir(r, d) <==> IsDir(fs, d))
    ensures forall d :: IsDir(fs, d) && d != parent ==> IsDir(r, d) && r.listings[d] == fs.listings[d]
    ensures IsDir(fs, parent) && name != [] && parent != dir ==>
              IsDir(r, parent) && fs.listings[parent] <= r.listings[parent] &&
              forall n :: n in r.listings[parent] <==> n in fs.listings[parent] || n == name
  {
    var created := FileSystem(fs.listings[dir := []]);
    if IsDir(fs, parent) && name != [] && parent != dir then AddEntry(created, parent, name) else created
  }

  /**
   * Path.mkdir(exist_ok=True): an existing directory is left as it is; a new one
   * starts empty and, when its parent directory exists, is listed there under
   * its name.
   */
  function MakeDir(fs: FileSystem, dir: Path): (r: FileSystem)
    ensures IsDir(r, dir)
    ensures forall d :: d != dir ==> (IsDir(r, d) <==> IsDir(fs, d))
    ensures IsDir(fs, dir) ==> r == fs
    ensures !IsDir(fs, dir) ==> r.listings[dir] == []
    ensures forall d :: IsDir(fs, d) && d != Parent(dir) ==> IsDir(r, d) && r.listings[d] == fs.listings[d]
    ensures !IsDir(fs, dir) && IsDir(fs, Parent(dir)) && Name(dir) != [] ==>
              IsDir(r, Parent(dir)) && fs.listings[Parent(dir)] <= r.listings[Parent(dir)] &&
              forall n :: n in r.listings[Parent(dir)] <==> n in fs.listings[Parent(dir)] || n == Name(dir)
  {
    if IsDir(fs, dir) then fs
    else
      var parent, name := Parent(dir), Name(dir);
      if name != [] then
        ParentDiffers(dir);
        NewDir(fs, dir, parent, name)
      else NewDir(fs, dir, parent, name)
  }

  /** `p` is an entry of an existing directory without being a directory itself: a regular file. */
  predicate IsFile(fs: FileSystem, p: Path) {
    !IsDir(fs, p) && Name(p) != [] && IsDir(fs, Parent(p)) && Name(p) in fs.listings[Parent(p)]
  }

  /**
   * Path.mkdir(parents=True, exist_ok=True) raises for a path that is not a
   * directory when the path is a regular file (FileExistsError) or its parent is
   * one (NotADirectoryError); exist_ok forgives only an existing directory.
   */
  predicate MakeDirRaises(fs: FileSystem, dir: Path) {
    !IsDir(fs, dir) && (IsFile(fs, dir) || IsFile(fs, Parent(dir)))
  }

  /**
   * mkdir succeeds on an existing directory, and on a name that is still free
   * in an existing parent directory.
   */
  lemma MakeDirSucceeds(fs: FileSystem, dir: Path)
    requires IsDir(fs, dir) || (IsDir(fs, Parent(dir)) && Name(dir) !in fs.listings[Parent(dir)])
    ensures !MakeDirRaises(fs, dir)
  {
    if !IsDir(fs, dir) {
      assert !IsFile(fs, dir);
      assert !IsFile(fs, Parent(dir));
    }
  }

  /** A regular file `crops` in the working directory: mkdir("crops") raises, and so does mkdir("crops/out"). */
  lemma FileInTheWay()
    ensures MakeDirRaises(FileSystem(map["." := ["crops"]]), "crops")
    ensures MakeDirRaises(FileSystem(map["." := ["crops"]]), "crops/out")
  {
    var fs := FileSystem(map["." := ["crops"]]);
    var file, sub := "crops", "crops/out";
    RFindIsLast(file, '/');
    RFindIsLast(sub, '/');
    assert file[0] == 'c' && file[1] == 'r' && file[2] == 'o' && file[3] == 'p' && file[4] == 's';
    assert RFind(file, '/') == -1;
    assert sub[5] == '/' && sub[6] == 'o' && sub[7] == 'u' && sub[8] == 't';
    assert RFind(sub, '/') == 5;
    assert sub[..5] == file;
    assert IsFile(fs, "crops");
  }

  /** Creating the file `name` in `dir`: the directory lists it from then on, and nothing else changes. */
  function AddEntry(fs: FileSystem, dir: Path, name: string): (r: FileSystem)
    ensures r.listings.Keys == fs.listings.Keys
    ensures forall d :: d in fs.listings && d != dir ==> r.listings[d] == fs.listings[d]
    ensures dir in fs.listings ==> fs.listings[dir] <= r.listings[dir]
    ensures dir in fs.listings ==> forall n :: n in r.listings[dir] <==> n in fs.listings[dir] || n == name
    ensures dir in fs.listings ==> |r.listings[dir]| <= |fs.listings[dir]| + 1
    ensures dir in fs.listings && name in fs.listings[dir] ==> r == fs
  {
    if dir in fs.listings && name !in fs.listings[dir] then
      FileSystem(fs.listings[dir := fs.listings[dir] + [name]])
    else fs
  }
}
