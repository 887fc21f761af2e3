// Module resolution: a module name and the requiring script become the
// resolved path of a Lua file, or a not-found or C-module error. The file
// system is the set `fs` of resolved paths that exist (files and
// directories); `p.exists()` is membership of `p`'s resolved form.

module Resolver {
  import opened Text
  import opened Paths
  import opened Errors

  /** `C_EXTENSIONS`: binary modules that cannot be bundled. */
  const CExtensions: set<string> := {".so", ".dll", ".dylib"}

  /** The local module directories searched after the base directory, in this order. */
  const LocalDirs: seq<string> := ["lua_modules", "lib", "src"]

  /** `p.exists()` */
  predicate Exists(fs: set<Path>, p: Path) {
    Normalize(p) in fs
  }

  /** `module_name.replace('.', '/')` */
  function DotsToSlashes(name: string): (r: string)
    ensures |r| == |name| && '.' !in r
    ensures forall i | 0 <= i < |name| :: name[i] != '.' ==> r[i] == name[i]
    ensures forall i | 0 <= i < |name| :: name[i] == '.' ==> r[i] == '/'
  {
    if name == [] then []
    else [if name[0] == '.' then '/' else name[0]] + DotsToSlashes(name[1..])
  }

  /** A name written relative to the requiring script. */
  predicate IsRelative(name: string) {
    StartsWith(name, "./") || StartsWith(name, "../")
  }

  /** What looking in one place finds: a Lua file (resolved), existing C modules, or nothing. */
  datatype Hit = LuaFile(path: Path) | CModule(found: set<Path>) | NoHit

  /** The first candidate that exists. */
  function FirstExisting(fs: set<Path>, candidates: seq<Path>): (r: Option<Path>)
    ensures r.None? <==> forall i | 0 <= i < |candidates| :: !Exists(fs, candidates[i])
    ensures r.Some? ==>
      exists i | 0 <= i < |candidates| ::
        candidates[i] == r.value && Exists(fs, candidates[i])
        && forall j | 0 <= j < i :: !Exists(fs, candidates[j])
  {
    if candidates == [] then None
    else if Exists(fs, candidates[0]) then Some(candidates[0])
    else
      var r := FirstExisting(fs, candidates[1..]);
      assert forall i | 1 <= i < |candidates| :: candidates[i] == candidates[1..][i - 1];
      r
  }

  /** The Lua candidates first, and only when none exists the C candidates. */
  function Lookup(fs: set<Path>, lua: seq<Path>, c: set<Path>): (r: Hit)
    ensures r.LuaFile? ==> r.path in fs && IsNormal(r.path)
    ensures r.CModule? ==> r.found != {} && forall p | p in r.found :: p in c && Exists(fs, p)
  {
    match FirstExisting(fs, lua)
    case Some(p) => LuaFile(Normalize(p))
    case None =>
      var hits := set p | p in c && Exists(fs, p);
      if hits == {} then NoHit else CModule(hits)
  }

  /** The C modules among the candidates. */
  function CHits(fs: set<Path>, c: set<Path>): set<Path> {
    set p | p in c && Exists(fs, p)
  }

  /** What a lookup finds, stated case by case over the candidates. */
  lemma LookupMeaning(fs: set<Path>, lua: seq<Path>, c: set<Path>)
    ensures forall p :: Lookup(fs, lua, c) == LuaFile(p) <==>
      exists i | 0 <= i < |lua| ::
        Exists(fs, lua[i]) && p == Normalize(lua[i]) && forall j | 0 <= j < i :: !Exists(fs, lua[j])
    ensures Lookup(fs, lua, c).CModule? <==>
      (forall i | 0 <= i < |lua| :: !Exists(fs, lua[i])) && CHits(fs, c) != {}
    ensures Lookup(fs, lua, c).CModule? ==> Lookup(fs, lua, c).found == CHits(fs, c)
    ensures Lookup(fs, lua, c) == NoHit <==>
      (forall i | 0 <= i < |lua| :: !Exists(fs, lua[i])) && forall p | p in c :: !Exists(fs, p)
  {
    var f := FirstExisting(fs, lua);
    forall p
      ensures Lookup(fs, lua, c) == LuaFile(p) <==>
        exists i | 0 <= i < |lua| ::
          Exists(fs, lua[i]) && p == Normalize(lua[i]) && forall j | 0 <= j < i :: !Exists(fs, lua[j])
    {
      if f.Some? {
        var i :| 0 <= i < |lua| && lua[i] == f.value && Exists(fs, lua[i])
                 && forall j | 0 <= j < i :: !Exists(fs, lua[j]);
        forall k | 0 <= k < |lua| && Exists(fs, lua[k]) && forall j | 0 <= j < k :: !Exists(fs, lua[j])
          ensures k == i
        {
        }
      }
    }
    if f.None? && CHits(fs, c) == {} {
      forall p | p in c
        ensures !Exists(fs, p)
      {
        assert p !in CHits(fs, c);
      }
    }
  }

  /** `search_path / f"{module_path}.lua"`, then `search_path / module_path / "init.lua"`. */
  function LuaCandidates(dir: Path, modulePath: string): seq<Path> {
    [JoinPath(dir, modulePath + ".lua"), JoinPath(JoinPath(dir, modulePath), "init.lua")]
  }

  /** `search_path / f"{module_path}{ext}"` for each C extension. */
  function CCandidates(dir: Path, modulePath: string): set<Path> {
    set ext | ext in CExtensions :: JoinPath(dir, modulePath + ext)
  }

  /** Looking for a dotted module in one search directory. */
  function LookupDir(fs: set<Path>, dir: Path, modulePath: string): Hit {
    Lookup(fs, LuaCandidates(dir, modulePath), CCandidates(dir, modulePath))
  }

  /** The search directories in order: the first one where something is found decides. */
  function Search(fs: set<Path>, dirs: seq<Path>, modulePath: string): (r: Hit)
    ensures r.LuaFile? ==> r.path in fs && IsNormal(r.path)
  {
    if dirs == [] then NoHit
    else
      var h := LookupDir(fs, dirs[0], modulePath);
      if h.NoHit? then Search(fs, dirs[1..], modulePath) else h
  }

  /** The search result is what the first directory with a hit finds; nothing if there is none. */
  lemma {:induction false} SearchMeaning(fs: set<Path>, dirs: seq<Path>, modulePath: string)
    ensures Search(fs, dirs, modulePath) == NoHit <==>
      forall i | 0 <= i < |dirs| :: LookupDir(fs, dirs[i], modulePath) == NoHit
    ensures Search(fs, dirs, modulePath) != NoHit ==>
      exists i | 0 <= i < |dirs| ::
        Search(fs, dirs, modulePath) == LookupDir(fs, dirs[i], modulePath)
        && forall j | 0 <= j < i :: LookupDir(fs, dirs[j], modulePath) == NoHit
  {
    if dirs != [] {
      var tail := dirs[1..];
      SearchMeaning(fs, tail, modulePath);
      var h := LookupDir(fs, dirs[0], modulePath);
      if h == NoHit {
        assert Search(fs, dirs, modulePath) == Search(fs, tail, modulePath);
        assert forall i | 0 <= i < |tail| :: tail[i] == dirs[i + 1];
        if Search(fs, tail, modulePath) != NoHit {
          var i :| 0 <= i < |tail| &&
            Search(fs, tail, modulePath) == LookupDir(fs, tail[i], modulePath)
            && forall j | 0 <= j < i :: LookupDir(fs, tail[j], modulePath) == NoHit;
          forall j | 0 <= j < i + 1
            ensures LookupDir(fs, dirs[j], modulePath) == NoHit
          {
            if j > 0 {
              assert dirs[j] == tail[j - 1];
            }
          }
        }
      } else {
        assert Search(fs, dirs, modulePath) == h;
      }
    }
  }

  /** `(from_script_path.parent / module_name).resolve()` */
  function RelativeTarget(from: Path, name: string): Path {
    Normalize(JoinPath(Parent(from), name))
  }

  /** A target already ending in `.lua` is tried as is; otherwise `.lua` and then `/init.lua`. */
  function RelativeLuaCandidates(target: Path): seq<Path> {
    if Suffix(target) == ".lua" then [target] else [AppendToName(target, ".lua"), target + ["init.lua"]]
  }

  /** `Path(str(target_path) + ext)` for each C extension. */
  function RelativeCCandidates(target: Path): set<Path> {
    set ext | ext in CExtensions :: AppendToName(target, ext)
  }

  /** Looking for a relative module next to the requiring script. */
  function LookupRelative(fs: set<Path>, from: Path, name: string): Hit {
    var target := RelativeTarget(from, name);
    Lookup(fs, RelativeLuaCandidates(target), RelativeCCandidates(target))
  }

  /** `str(p)` for each path. */
  function PathStrings(ps: seq<Path>): (r: seq<string>)
    ensures |r| == |ps| && forall i | 0 <= i < |ps| :: r[i] == PathToString(ps[i])
  {
    seq(|ps|, i requires 0 <= i < |ps| => PathToString(ps[i]))
  }

  /** What `resolve` finds for `name` required from the script `from`. */
  function Resolution(fs: set<Path>, searchPaths: seq<Path>, name: string, from: Path): (r: Hit)
    ensures r.LuaFile? ==> r.path in fs && IsNormal(r.path)
  {
    if IsRelative(name) then LookupRelative(fs, Normalize(from), name)
    else Search(fs, searchPaths, DotsToSlashes(name))
  }

  /**
   * The error `resolve` raises when nothing is found: a relative name names
   * the resolved script and its directory only; any other name names the
   * script as given and every search directory.
   */
  function NotFound(searchPaths: seq<Path>, name: string, from: Path): (e: Error)
    ensures e.ModuleNotFound? && e.moduleName == name
    ensures IsRelative(name) ==> e.searchedPaths == [PathToString(Parent(Normalize(from)))]
    ensures !IsRelative(name) ==> e.searchedPaths == PathStrings(searchPaths)
  {
    var fromPath := Normalize(from);
    if IsRelative(name) then ModuleNotFound(name, PathToString(fromPath), [PathToString(Parent(fromPath))])
    else ModuleNotFound(name, PathToString(from), PathStrings(searchPaths))
  }

  /** The results a hit allows: the file, or an error naming any one of the C modules found. */
  function HitOutcomes(h: Hit, name: string): set<Result<Path>>
    requires !h.NoHit?
  {
    match h
    case LuaFile(p) => {Ok(p)}
    case CModule(found) => set p | p in found :: Err(CModuleNotSupported(name, PathToString(p)))
  }

  /** The results `resolve` may give for a hit; `notFound` when there is none. */
  function Outcomes(h: Hit, name: string, notFound: Error): set<Result<Path>> {
    if h.NoHit? then {Err(notFound)} else HitOutcomes(h, name)
  }

  /** A result is a path exactly for a Lua hit; an error is the not-found error or a C-module error for the name. */
  lemma OutcomeMeaning(h: Hit, name: string, notFound: Error, r: Result<Path>)
    requires r in Outcomes(h, name, notFound)
    ensures r.Ok? <==> h.LuaFile?
    ensures r.Ok? ==> r.value == h.path
    ensures r.Err? ==> r.error == notFound || r.error == CModuleNotSupported(name, r.error.modulePath)
    ensures r.Err? && r.error.CModuleNotSupported? && !notFound.CModuleNotSupported? ==>
              h.CModule? && exists p | p in h.found :: r.error.modulePath == PathToString(p)
  {
  }

  /** The local directories under `base`, as joined: `base_path / 'lua_modules'` and so on. */
  function LocalDirPaths(base: Path): (r: seq<Path>)
    ensures |r| == |LocalDirs|
  {
    seq(|LocalDirs|, k requires 0 <= k < |LocalDirs| => JoinPath(base, LocalDirs[k]))
  }

  /** The same directories, resolved. */
  function ResolvedLocalDirs(base: Path): (r: seq<Path>)
    ensures |r| == |LocalDirs|
  {
    seq(|LocalDirs|, k requires 0 <= k < |LocalDirs| => Normalize(JoinPath(base, LocalDirs[k])))
  }

  /** Those of `dirs` that exist, in order. */
  function ExistingDirs(fs: set<Path>, dirs: seq<Path>): (r: seq<Path>)
    ensures forall i | 0 <= i < |r| :: r[i] in fs
  {
    if dirs == [] then []
    else
      var d := dirs[|dirs| - 1];
      ExistingDirs(fs, dirs[..|dirs| - 1]) + (if d in fs then [d] else [])
  }

  /** Adding the next directory to the directories found so far, behind `front`. */
  lemma ExistingDirsStep(fs: set<Path>, front: seq<Path>, dirs: seq<Path>, i: nat, found: seq<Path>, found': seq<Path>)
    requires i < |dirs| && found == front + ExistingDirs(fs, dirs[..i])
    requires found' == if dirs[i] in fs then found + [dirs[i]] else found
    ensures found' == front + ExistingDirs(fs, dirs[..i + 1])
  {
    assert dirs[..i + 1][..i] == dirs[..i];
  }

  /** `_build_search_paths`: the base directory, the local directories that exist, the LuaRocks directories. */
  function SearchPaths(fs: set<Path>, base: Path, luarocks: seq<Path>): seq<Path> {
    [base] + ExistingDirs(fs, ResolvedLocalDirs(base)) + luarocks
  }

  /** A directory is listed exactly when it is one of `dirs` and exists. */
  lemma {:induction false} ExistingDirsMembers(fs: set<Path>, dirs: seq<Path>, p: Path)
    ensures p in ExistingDirs(fs, dirs) <==> p in dirs && p in fs
  {
    if dirs != [] {
      var init := dirs[..|dirs| - 1];
      ExistingDirsMembers(fs, init, p);
      assert dirs == init + [dirs[|dirs| - 1]];
    }
  }

  /**
   * The search directories start with the base directory and end with the
   * LuaRocks directories; in between stand, in their order, those of the
   * resolved local directories that exist, and each of them when it exists.
   */
  lemma SearchPathsShape(fs: set<Path>, base: Path, luarocks: seq<Path>)
    ensures var sp := SearchPaths(fs, base, luarocks);
      |sp| >= 1 + |luarocks| && sp[0] == base && sp[|sp| - |luarocks|..] == luarocks
      && sp[1..|sp| - |luarocks|] == ExistingDirs(fs, ResolvedLocalDirs(base))
      && forall k | 0 <= k < |LocalDirs| ::
           Normalize(JoinPath(base, LocalDirs[k])) in sp[1..|sp| - |luarocks|]
           <==> Exists(fs, JoinPath(base, LocalDirs[k]))
  {
    var sp := SearchPaths(fs, base, luarocks);
    var resolved := ResolvedLocalDirs(base);
    assert sp[1..|sp| - |luarocks|] == ExistingDirs(fs, resolved);
    forall k | 0 <= k < |LocalDirs|
      ensures Normalize(JoinPath(base, LocalDirs[k])) in ExistingDirs(fs, resolved)
              <==> Exists(fs, JoinPath(base, LocalDirs[k]))
    {
      assert resolved[k] == Normalize(JoinPath(base, LocalDirs[k]));
      ExistingDirsMembers(fs, resolved, resolved[k]);
    }
  }

  // ---------------------------------------------------------------------
  // The searches the resolver is promised to perform, for plain names.

  /** A name without '/' or '.' is the one segment `name + ext` under a normal directory. */
  lemma JoinPlainName(dir: Path, name: string, ext: string)
    requires IsNormal(dir) && name != "" && '/' !in name + ext && '.' !in name && ext != ".."
    ensures Normalize(JoinPath(dir, name + ext)) == dir + [name + ext]
  {
    SplitOnNoSeparator(name + ext, '/');
    assert (name + ext)[0] == name[0];
    assert IsKeptSegment(name + ext) && name + ext != "..";
    assert KeepSegments([name + ext]) == [name + ext] by {
      assert [name + ext][1..] == [];
    }
    NormalizeOntoNormal([], dir + [name + ext]);
    assert [] + (dir + [name + ext]) == dir + [name + ext];
  }

  /** `require("utils")` from a script whose directory holds `utils.lua` finds that file. */
  lemma PlainNameFoundInFirstDir(fs: set<Path>, dirs: seq<Path>, name: string)
    requires |dirs| >= 1 && IsNormal(dirs[0])
    requires name != "" && '/' !in name && '.' !in name
    requires dirs[0] + [name + ".lua"] in fs
    ensures Search(fs, dirs, DotsToSlashes(name)) == LuaFile(dirs[0] + [name + ".lua"])
  {
    assert DotsToSlashes(name) == name;
    JoinPlainName(dirs[0], name, ".lua");
  }

  /** `require("./utils")` finds `utils.lua` in the requiring script's own directory. */
  lemma RelativeSameDir(fs: set<Path>, from: Path, name: string)
    requires IsNormal(from) && IsNormal([name]) && '/' !in name && Suffix([name]) != ".lua"
    requires Parent(from) + [name + ".lua"] in fs
    ensures LookupRelative(fs, from, "./" + name) == LuaFile(Parent(from) + [name + ".lua"])
  {
    JoinCurrentDir(Parent(from), name);
    var target := Parent(from) + [name];
    assert RelativeTarget(from, "./" + name) == target;
    assert Name(target) == name;
    assert AppendToName(target, ".lua") == Parent(from) + [name + ".lua"];
    assert IsNormal(Parent(from) + [name + ".lua"]);
    NormalizeIdempotent(Parent(from) + [name + ".lua"]);
  }

  /** `require("../config")` finds `config.lua` in the parent of the script's directory. */
  lemma RelativeParentDir(fs: set<Path>, from: Path, name: string)
    requires IsNormal(from) && IsNormal([name]) && '/' !in name && Suffix([name]) != ".lua"
    requires Parent(Parent(from)) + [name + ".lua"] in fs
    ensures LookupRelative(fs, from, "../" + name) == LuaFile(Parent(Parent(from)) + [name + ".lua"])
  {
    JoinParentDir(Parent(from), name);
    var target := Parent(Parent(from)) + [name];
    assert RelativeTarget(from, "../" + name) == target;
    assert Name(target) == name;
    assert AppendToName(target, ".lua") == Parent(Parent(from)) + [name + ".lua"];
    assert IsNormal(Parent(Parent(from)) + [name + ".lua"]);
    NormalizeIdempotent(Parent(Parent(from)) + [name + ".lua"]);
  }

  class ModuleResolver {
    const basePath: Path
    /** The file system: every resolved path that exists. */
    const fs: set<Path>
    const searchPaths: seq<Path>

    /** `__init__`, with the LuaRocks directories given instead of detected. */
    constructor(base: Path, fs: set<Path>, luarocks: seq<Path>)
      ensures basePath == Normalize(base) && this.fs == fs
      ensures searchPaths == SearchPaths(fs, Normalize(base), luarocks)
    {
      basePath := Normalize(base);
      this.fs := fs;
      var paths := BuildSearchPaths(fs, Normalize(base), luarocks);
      searchPaths := paths;
    }

    /** `_build_search_paths` */
    static method BuildSearchPaths(fs: set<Path>, basePath: Path, luarocks: seq<Path>) returns (paths: seq<Path>)
      ensures paths == SearchPaths(fs, basePath, luarocks)
    {
      paths := [basePath];
      var localDirs := LocalDirPaths(basePath);
      ghost var resolved := ResolvedLocalDirs(basePath);
      var i := 0;
      while i < |localDirs|
        invariant 0 <= i <= |localDirs|
        invariant paths == [basePath] + ExistingDirs(fs, resolved[..i])
      {
        var localDir := localDirs[i];
        ghost var before := paths;
        assert resolved[i] == Normalize(localDir);
        if Normalize(localDir) in fs {
          paths := paths + [Normalize(localDir)];
        }
        ExistingDirsStep(fs, [basePath], resolved, i, before, paths);
        i := i + 1;
      }
      assert resolved[..i] == resolved;
      paths := paths + luarocks;
    }

    /** `resolve` */
    method Resolve(name: string, from: Path) returns (r: Result<Path>)
      ensures r in Outcomes(Resolution(fs, searchPaths, name, from), name, NotFound(searchPaths, name, from))
      ensures r.Ok? ==> r.value in fs && IsNormal(r.value)
    {
      var fromPath := Normalize(from);
      if StartsWith(name, "./") || StartsWith(name, "../") {
        r := ResolveRelative(name, fromPath);
        return;
      }
      var modulePath := DotsToSlashes(name);
      var i := 0;
      while i < |searchPaths|
        invariant 0 <= i <= |searchPaths|
        invariant Search(fs, searchPaths, modulePath) == Search(fs, searchPaths[i..], modulePath)
      {
        var searchPath := searchPaths[i];
        assert searchPaths[i..][1..] == searchPaths[i + 1..];
        var found := TryCandidates(LuaCandidates(searchPath, modulePath), CCandidates(searchPath, modulePath), name);
        if found.Some? {
          return found.value;
        }
        i := i + 1;
      }
      return Err(ModuleNotFound(name, PathToString(from), PathStrings(searchPaths)));
    }

    /** `_resolve_relative` */
    method ResolveRelative(name: string, fromPath: Path) returns (r: Result<Path>)
      ensures r in Outcomes(LookupRelative(fs, fromPath, name), name,
                            ModuleNotFound(name, PathToString(fromPath), [PathToString(Parent(fromPath))]))
      ensures r.Ok? ==> r.value in fs && IsNormal(r.value)
    {
      var baseDir := Parent(fromPath);
      var targetPath := Normalize(JoinPath(baseDir, name));
      var candidates: seq<Path> := [];
      if Suffix(targetPath) == ".lua" {
        candidates := candidates + [targetPath];
      } else {
        candidates := candidates + [AppendToName(targetPath, ".lua"), targetPath + ["init.lua"]];
      }
      assert candidates == RelativeLuaCandidates(targetPath);
      var found := TryCandidates(candidates, RelativeCCandidates(targetPath), name);
      if found.Some? {
        return found.value;
      }
      return Err(ModuleNotFound(name, PathToString(fromPath), [PathToString(baseDir)]));
    }

    /**
     * One place to look: the Lua candidates in order, then the C candidates
     * in no particular order. None means look further.
     */
    method TryCandidates(lua: seq<Path>, c: set<Path>, name: string) returns (r: Option<Result<Path>>)
      ensures r.None? <==> Lookup(fs, lua, c) == NoHit
      ensures r.Some? ==> !Lookup(fs, lua, c).NoHit? && r.value in HitOutcomes(Lookup(fs, lua, c), name)
      ensures r.Some? && r.value.Ok? ==> r.value.value in fs && IsNormal(r.value.value)
    {
      var j := 0;
      while j < |lua|
        invariant 0 <= j <= |lua|
        invariant forall k | 0 <= k < j :: !Exists(fs, lua[k])
      {
        if Normalize(lua[j]) in fs {
          assert FirstExisting(fs, lua) == Some(lua[j]) by {
            LookupMeaning(fs, lua, c);
          }
          return Some(Ok(Normalize(lua[j])));
        }
        j := j + 1;
      }
      assert FirstExisting(fs, lua).None?;
      var rest := c;
      while rest != {}
        invariant rest <= c
        invariant forall p | p in c - rest :: !Exists(fs, p)
        decreases rest
      {
        var p :| p in rest;
        if Normalize(p) in fs {
          assert p in CHits(fs, c);
          LookupMeaning(fs, lua, c);
          return Some(Err(CModuleNotSupported(name, PathToString(p))));
        }
        rest := rest - {p};
      }
      assert forall p | p in c :: p in c - rest;
      return None;
    }
  }
}
