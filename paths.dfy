// File-system paths as the resolver sees them: an absolute path is the
// sequence of its segments below the root. `pathlib` joining and parsing are
// modelled on strings split at '/', and `Path.resolve()` as the lexical
// removal of '.', empty and '..' segments.

module Paths {
  import opened Text

  /** An absolute POSIX path, as its segments below the root: `/a/b.lua` is ["a", "b.lua"]. */
  type Path = seq<string>

  /** `s.split(c)`: the pieces of s between occurrences of c (always at least one). */
  function SplitOn(s: string, c: char): (r: seq<string>)
    ensures |r| >= 1
    ensures forall i | 0 <= i < |r| :: c !in r[i]
  {
    if |s| == 0 then [""]
    else
      var rest := SplitOn(s[1..], c);
      if s[0] == c then [""] + rest else [[s[0]] + rest[0]] + rest[1..]
  }

  /** Splitting at c and joining with c gives back the string. */
  lemma {:induction false} SplitOnJoin(s: string, c: char)
    ensures Join(SplitOn(s, c), [c]) == s
  {
    if |s| > 0 {
      var rest := SplitOn(s[1..], c);
      SplitOnJoin(s[1..], c);
      if s[0] == c {
        assert SplitOn(s, c) == [""] + rest;
        assert Join([""] + rest, [c]) == "" + [c] + Join(rest, [c]);
        assert s == [s[0]] + s[1..];
      } else {
        JoinHead(rest, [c], [s[0]]);
        assert s == [s[0]] + s[1..];
      }
    }
  }

  /** Extending the first part of a join extends the joined string at the front. */
  lemma JoinHead(parts: seq<string>, sep: string, x: string)
    requires |parts| >= 1
    ensures Join([x + parts[0]] + parts[1..], sep) == x + Join(parts, sep)
  {
    var q := [x + parts[0]] + parts[1..];
    assert q[1..] == parts[1..];
  }

  /** Splitting a concatenation at a separator between the two halves. */
  lemma {:induction false} SplitOnConcat(a: string, b: string, c: char)
    ensures SplitOn(a + [c] + b, c) == SplitOn(a, c) + SplitOn(b, c)
  {
    if |a| == 0 {
      assert a + [c] + b == [c] + b;
      assert ([c] + b)[1..] == b;
    } else {
      assert (a + [c] + b)[1..] == a[1..] + [c] + b;
      SplitOnConcat(a[1..], b, c);
    }
  }

  lemma SplitOnNoSeparator(s: string, c: char)
    requires c !in s
    ensures SplitOn(s, c) == [s]
  {
    if |s| > 0 {
      SplitOnNoSeparator(s[1..], c);
      assert s == [s[0]] + s[1..];
    }
  }

  /** A segment that `pathlib` keeps when it parses a path: not empty and not '.'. */
  predicate IsKeptSegment(seg: string) {
    seg != "" && seg != "."
  }

  function KeepSegments(segs: seq<string>): (r: seq<string>)
    ensures forall i | 0 <= i < |r| :: IsKeptSegment(r[i])
    ensures forall s | s in r :: s in segs
  {
    if segs == [] then []
    else (if IsKeptSegment(segs[0]) then [segs[0]] else []) + KeepSegments(segs[1..])
  }

  lemma KeepSegmentsConcat(a: seq<string>, b: seq<string>)
    ensures KeepSegments(a + b) == KeepSegments(a) + KeepSegments(b)
  {
    if a == [] {
      assert a + b == b;
    } else {
      assert (a + b)[1..] == a[1..] + b;
      KeepSegmentsConcat(a[1..], b);
    }
  }

  /** The segments of a path string as `PurePosixPath` parses them ('..' is kept). */
  function PureSegments(s: string): seq<string> {
    KeepSegments(SplitOn(s, '/'))
  }

  /** `base / rel` with pathlib: an absolute `rel` replaces `base`. */
  function JoinPath(base: Path, rel: string): Path {
    if |rel| > 0 && rel[0] == '/' then PureSegments(rel) else base + PureSegments(rel)
  }

  /** A path with no empty, '.' or '..' segment, which is what `Path.resolve()` returns. */
  predicate IsNormal(p: Path) {
    forall i | 0 <= i < |p| :: IsKeptSegment(p[i]) && p[i] != ".."
  }

  /** `Path.resolve()` without symbolic links: '.' and empty segments vanish, '..' drops a segment. */
  function Normalize(p: Path): (r: Path)
    ensures IsNormal(r)
  {
    NormalizeOnto([], p)
  }

  function NormalizeOnto(acc: Path, rest: seq<string>): (r: Path)
    requires IsNormal(acc)
    ensures IsNormal(r)
    decreases |rest|
  {
    if rest == [] then acc
    else if !IsKeptSegment(rest[0]) then NormalizeOnto(acc, rest[1..])
    else if rest[0] == ".." then NormalizeOnto(Parent(acc), rest[1..])
    else NormalizeOnto(acc + [rest[0]], rest[1..])
  }

  lemma {:induction false} NormalizeOntoNormal(acc: Path, rest: seq<string>)
    requires IsNormal(acc) && IsNormal(rest)
    ensures NormalizeOnto(acc, rest) == acc + rest
    decreases |rest|
  {
    if rest != [] {
      NormalizeOntoNormal(acc + [rest[0]], rest[1..]);
      assert acc + [rest[0]] + rest[1..] == acc + rest;
    }
  }

  /** A resolved path resolves to itself, so resolving twice is resolving once. */
  lemma NormalizeIdempotent(p: Path)
    ensures IsNormal(p) ==> Normalize(p) == p
    ensures Normalize(Normalize(p)) == Normalize(p)
  {
    NormalizeOntoNormal([], Normalize(p));
    if IsNormal(p) {
      NormalizeOntoNormal([], p);
    }
  }

  /** `p.parent`; the root is its own parent. */
  function Parent(p: Path): (r: Path)
    ensures IsNormal(p) ==> IsNormal(r)
  {
    if p == [] then [] else p[..|p| - 1]
  }

  /** `p.name`: the last segment, or "" for the root. */
  function Name(p: Path): string {
    if p == [] then "" else p[|p| - 1]
  }

  /** The index of the last '.' in s, or -1. */
  function LastDot(s: string): (i: int)
    ensures -1 <= i < |s|
    ensures i >= 0 ==> s[i] == '.'
    ensures forall j | i < j < |s| :: s[j] != '.'
  {
    if |s| == 0 then -1 else if s[|s| - 1] == '.' then |s| - 1 else LastDot(s[..|s| - 1])
  }

  /** `p.suffix`: from the last '.' of the name, unless that dot starts or ends the name. */
  function Suffix(p: Path): string {
    var name := Name(p);
    var i := LastDot(name);
    if 0 < i < |name| - 1 then name[i..] else ""
  }

  /** `Path(str(p) + ext)`: ext glued onto the last segment (the root gives the segment ext). */
  function AppendToName(p: Path, ext: string): Path {
    if p == [] then [ext] else p[..|p| - 1] + [p[|p| - 1] + ext]
  }

  /** `str(p)` */
  function PathToString(p: Path): string {
    "/" + Join(p, "/")
  }

  /** `'./name'` names `name` in the directory itself. */
  lemma JoinCurrentDir(dir: Path, name: string)
    requires IsNormal(dir) && IsNormal([name]) && '/' !in name
    ensures Normalize(JoinPath(dir, "./" + name)) == dir + [name]
  {
    SplitOnConcat(".", name, '/');
    assert "./" + name == "." + ['/'] + name;
    SplitOnNoSeparator(".", '/');
    SplitOnNoSeparator(name, '/');
    KeepSegmentsConcat(["."], [name]);
    assert PureSegments("./" + name) == [name];
    NormalizeOntoNormal([], dir + [name]);
  }

  /** `'../name'` names `name` in the parent of the directory. */
  lemma JoinParentDir(dir: Path, name: string)
    requires IsNormal(dir) && IsNormal([name]) && '/' !in name
    ensures Normalize(JoinPath(dir, "../" + name)) == Parent(dir) + [name]
  {
    SplitOnConcat("..", name, '/');
    assert "../" + name == ".." + ['/'] + name;
    SplitOnNoSeparator("..", '/');
    SplitOnNoSeparator(name, '/');
    KeepSegmentsConcat([".."], [name]);
    assert PureSegments("../" + name) == ["..", name];
    NormalizeOntoNormal([], dir);
    NormalizeOntoPrefix(dir, ["..", name]);
    NormalizeOntoNormal(Parent(dir), [name]);
  }

  /** Normalizing a normal prefix first and then the rest is normalizing the whole. */
  lemma NormalizeOntoPrefix(prefix: Path, rest: seq<string>)
    requires IsNormal(prefix)
    ensures NormalizeOnto([], prefix + rest) == NormalizeOnto(prefix, rest)
  {
    NormalizeOntoSplit([], prefix, rest);
    NormalizeOntoNormal([], prefix);
    assert [] + prefix == prefix;
  }

  lemma {:induction false} NormalizeOntoSplit(acc: Path, a: seq<string>, b: seq<string>)
    requires IsNormal(acc)
    ensures NormalizeOnto(acc, a + b) == NormalizeOnto(NormalizeOnto(acc, a), b)
    decreases |a|
  {
    if a == [] {
      assert a + b == b;
    } else {
      assert (a + b)[0] == a[0] && (a + b)[1..] == a[1..] + b;
      if !IsKeptSegment(a[0]) {
        NormalizeOntoSplit(acc, a[1..], b);
      } else if a[0] == ".." {
        NormalizeOntoSplit(Parent(acc), a[1..], b);
      } else {
        NormalizeOntoSplit(acc + [a[0]], a[1..], b);
      }
    }
  }
}
