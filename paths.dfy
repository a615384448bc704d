/** The three POSIX path operations the program uses, with the semantics of
    Python's `os.path` on POSIX systems: `basename`, `splitext` and a
    two-argument `join`. */
module Paths {
  import opened Text

  /** Index of the last occurrence of `c` in `s`, or -1 (`str.rfind`). */
  function LastIndex(s: string, c: char): (i: int)
    ensures -1 <= i < |s|
    ensures i >= 0 ==> s[i] == c
    ensures forall j :: i < j < |s| ==> s[j] != c
  {
    if s == [] then -1
    else if s[|s| - 1] == c then |s| - 1
    else LastIndex(s[..|s| - 1], c)
  }

  /** `os.path.basename(p)`: everything after the last '/'. */
  function Basename(p: string): string {
    p[LastIndex(p, '/') + 1..]
  }

  /** The base name is the longest suffix of the path holding no '/'. */
  lemma BasenameSpec(p: string)
    ensures '/' !in Basename(p)
    ensures EndsWith(p, Basename(p))
    ensures |Basename(p)| < |p| ==> p[|p| - |Basename(p)| - 1] == '/'
  {
    var i := LastIndex(p, '/') + 1;
    assert forall k :: 0 <= k < |p[i..]| ==> p[i..][k] == p[i + k];
  }

  /** True iff some character strictly between positions `lo` and `hi` of `p`
      is not a dot. */
  predicate HasNonDotBetween(p: string, lo: int, hi: int)
    requires -1 <= lo && hi <= |p|
  {
    exists k :: lo < k < hi && p[k] != '.'
  }

  /** `os.path.splitext(p)`: split at the last dot of the last path
      component, unless everything before that dot in the component is dots
      (so ".bashrc" and "..x" have no extension). */
  function SplitExt(p: string): (string, string) {
    var sep := LastIndex(p, '/');
    var dot := LastIndex(p, '.');
    if dot > sep && HasNonDotBetween(p, sep, dot) then (p[..dot], p[dot..])
    else (p, "")
  }

  /** Root and extension put together give the path back, and the
      extension is empty or a single dot followed by neither '/' nor '.'. */
  lemma SplitExtSpec(p: string)
    ensures SplitExt(p).0 + SplitExt(p).1 == p
    ensures var ext := SplitExt(p).1;
            ext == [] || (ext[0] == '.' && '/' !in ext && '.' !in ext[1..])
  {
    var sep := LastIndex(p, '/');
    var dot := LastIndex(p, '.');
    if dot > sep && HasNonDotBetween(p, sep, dot) {
      assert forall j :: 0 <= j < |p[dot..]| ==> p[dot..][j] == p[dot + j];
      assert forall j :: 0 <= j < |p[dot..]| - 1 ==> p[dot..][1..][j] == p[dot + 1 + j];
    }
  }

  /** The name of a file without its directory and its extension:
      `os.path.splitext(os.path.basename(p))[0]`. */
  function Stem(p: string): string {
    SplitExt(Basename(p)).0
  }

  /** A stem never holds a '/'. */
  lemma StemNoSlash(p: string)
    ensures '/' !in Stem(p)
  {
    var b := Basename(p);
    BasenameSpec(p);
    SplitExtSpec(b);
    var r := SplitExt(b);
    assert r.0 == b[..|r.0|];
  }

  /** `os.path.join(a, b)`: `b` itself when it is absolute, otherwise `b`
      appended to `a` with one '/' between them unless `a` is empty or
      already ends with '/'. */
  function Join(a: string, b: string): string {
    if |b| > 0 && b[0] == '/' then b
    else if a == [] || a[|a| - 1] == '/' then a + b
    else a + "/" + b
  }

  /** Joining a relative name places it after a prefix that depends on the
      folder only, and never on the name. */
  lemma JoinRelative(a: string, b: string)
    requires b == [] || b[0] != '/'
    ensures Join(a, b) == Join(a, "") + b
  {
  }

  /** Joining a folder with two different relative names gives two
      different paths. */
  lemma JoinInjective(a: string, b1: string, b2: string)
    requires b1 == [] || b1[0] != '/'
    requires b2 == [] || b2[0] != '/'
    requires b1 != b2
    ensures Join(a, b1) != Join(a, b2)
  {
    JoinRelative(a, b1);
    JoinRelative(a, b2);
    var p := Join(a, "");
    assert (p + b1)[|p|..] == b1;
    assert (p + b2)[|p|..] == b2;
  }

  /** The base name of a file joined into a folder is the file's name. */
  lemma BasenameOfJoin(a: string, b: string)
    requires '/' !in b
    ensures Basename(Join(a, b)) == b
  {
    if b != [] {
      assert b[0] != '/';
    }
    JoinRelative(a, b);
    BasenameAfterSlash(Join(a, ""), b);
  }

  /** The base name of a folder path ending with '/' (or empty) followed by
      a name without '/' is that name. */
  lemma BasenameAfterSlash(p: string, b: string)
    requires p == [] || p[|p| - 1] == '/'
    requires '/' !in b
    ensures Basename(p + b) == b
  {
    LastIndexAfterPrefix(p, b, '/');
    if p != [] {
      LastIndexAtJunction(p, b, '/');
    }
    assert (p + b)[|p|..] == b;
  }

  /** No occurrence of `c` in `b` means the last `c` of `p + b` lies in `p`. */
  lemma LastIndexAfterPrefix(p: string, b: string, c: char)
    requires c !in b
    ensures LastIndex(p + b, c) < |p|
  {
    var j := p + b;
    assert forall k :: |p| <= k < |j| ==> j[k] == b[k - |p|];
  }

  /** When `p` ends with `c` and `q` holds none, the last `c` of `p + q` is
      the last character of `p`. */
  lemma LastIndexAtJunction(p: string, q: string, c: char)
    requires p != [] && p[|p| - 1] == c && c !in q
    ensures LastIndex(p + q, c) == |p| - 1
  {
    LastIndexAfterPrefix(p, q, c);
    assert (p + q)[|p| - 1] == c;
  }

  /** The stem of `<dir>/<name>.<ext>` is `name`, for a non-empty name with
      neither '/' nor '.' and an extension with neither. */
  lemma StemOfFile(dir: string, name: string, ext: string)
    requires name != [] && '/' !in name && '.' !in name
    requires '/' !in ext && '.' !in ext
    ensures Stem(dir + "/" + name + "." + ext) == name
  {
    var file := name + "." + ext;
    assert dir + "/" + name + "." + ext == (dir + "/") + file;
    assert '/' !in file by {
      assert forall k :: 0 <= k < |file| ==> file[k] == (if k < |name| then name[k] else if k == |name| then '.' else ext[k - |name| - 1]);
    }
    BasenameAfterSlash(dir + "/", file);
    SplitExtOfName(name, ext);
  }

  /** `name.ext` splits into `name` and `.ext`. */
  lemma SplitExtOfName(name: string, ext: string)
    requires name != [] && '/' !in name && '.' !in name
    requires '/' !in ext && '.' !in ext
    ensures SplitExt(name + "." + ext).0 == name
  {
    var file := name + "." + ext;
    LastIndexAtJunction(name + ".", ext, '.');
    assert file == (name + ".") + ext;
    assert '/' !in file by {
      assert forall k :: 0 <= k < |file| ==> file[k] == (if k < |name| then name[k] else if k == |name| then '.' else ext[k - |name| - 1]);
    }
    assert file[0] == name[0] != '.';
    assert HasNonDotBetween(file, -1, |name|);
    assert file[..|name|] == name;
  }
}
