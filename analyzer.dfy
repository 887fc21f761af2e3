// The dependency analyzer: a depth-first walk over the require statements
// of a Lua script, with cycle detection, a dependency limit and a
// post-order manifest.

module Analyzer {
  import opened Text
  import opened Errors
  import opened Paths
  import opened LexerSpec
  import Lexer
  import opened Resolver
  import opened Graph

  /** The default `max_dependencies`. */
  const DefaultMaxDependencies: int := 36

  // ---------------------------------------------------------------------
  // What a finished file records

  /** The files the requires resolve to, in order; None if any does not resolve to a Lua file. */
  ghost function ResolvedAll(fs: set<Path>, searchPaths: seq<Path>, reqs: seq<Require>, from: Path): Option<seq<Path>>
    decreases |reqs|
  {
    if reqs == [] then Some([])
    else
      var before := ResolvedAll(fs, searchPaths, reqs[..|reqs| - 1], from);
      var h := Resolution(fs, searchPaths, reqs[|reqs| - 1].name, from);
      if before.Some? && h.LuaFile? then Some(before.value + [h.path]) else None
  }

  /** The resolved requires of the file `k`, if its text scans and each require resolves. */
  ghost function DirectDeps(fs: set<Path>, searchPaths: seq<Path>, contents: Path -> string,
                            isAlnum: char -> bool, k: Path): Option<seq<Path>>
  {
    match ExtractRequires(contents(k), PathToString(k), isAlnum)
    case Err(_) => None
    case Ok(reqs) => ResolvedAll(fs, searchPaths, reqs, k)
  }

  /**
   * The chain `_analyze_recursive` reports when it meets `p` again: the
   * stack from the first occurrence of `p`, then `p`.
   */
  function CycleChain(stack: seq<Path>, p: Path): (c: Chain)
    requires p in stack
  {
    PathStrings(stack[IndexOf(stack, p)..]) + [PathToString(p)]
  }

  /** The chain starts and ends with the file met twice, and runs over the stack above it. */
  lemma CycleChainEnds(stack: seq<Path>, p: Path)
    requires p in stack
    ensures var c := CycleChain(stack, p);
      c[0] == PathToString(p) && c[|c| - 1] == PathToString(p)
      && |c| == |stack| - IndexOf(stack, p) + 1
      && forall k | 0 <= k < |c| - 1 :: c[k] == PathToString(stack[IndexOf(stack, p) + k])
  {
    var i := IndexOf(stack, p);
    assert stack[i..][0] == p;
  }

  /** A file that requires itself yields the chain `[s, s]`. */
  lemma SelfRequireChain(stack: seq<Path>, p: Path)
    requires NoDup(stack) && |stack| > 0 && stack[|stack| - 1] == p
    ensures CycleChain(stack, p) == [PathToString(p), PathToString(p)]
  {
    var i := IndexOf(stack, p);
    assert i == |stack| - 1;
    assert stack[i..] == [p];
  }

  // ---------------------------------------------------------------------
  // Steps of the walk over the recorded tree

  /** What a finished file records is its resolved requires, deduplicated. */
  ghost predicate Recorded(direct: Path -> Option<seq<Path>>, k: Path, deps: seq<Path>) {
    direct(k).Some? && deps == Dedup(direct(k).value)
  }

  /**
   * The invariant of the walk: the files on the stack are the files being
   * visited, each once and none finished; the finished files are the keys
   * of the tree, exist, record their resolved requires, and are ranked
   * above their dependencies.
   */
  ghost predicate WalkInv(fs: set<Path>, direct: Path -> Option<seq<Path>>, visiting: set<Path>, stack: seq<Path>,
                          visited: set<Path>, tree: Tree, rank: map<Path, nat>, finished: nat)
  {
    && (forall p :: p in visiting <==> p in stack)
    && NoDup(stack)
    && (forall p | p in stack :: p !in visited && p in fs)
    && tree.Keys == visited
    && rank.Keys == visited
    && (forall k | k in visited :: k in fs)
    && Ranked(tree, rank)
    && (forall k | k in rank :: rank[k] < finished)
    && (forall k | k in tree :: Recorded(direct, k, tree[k]))
  }

  /** Pushing a file that exists and is neither visited nor on the stack keeps the invariant. */
  lemma PushKeeps(fs: set<Path>, direct: Path -> Option<seq<Path>>, visiting: set<Path>, stack: seq<Path>,
                  visited: set<Path>, tree: Tree, rank: map<Path, nat>, finished: nat, script: Path)
    requires WalkInv(fs, direct, visiting, stack, visited, tree, rank, finished)
    requires script !in stack && script !in visited && script in fs
    ensures WalkInv(fs, direct, visiting + {script}, stack + [script], visited, tree, rank, finished)
  {
  }

  /**
   * Recording the file on top of the stack, with dependencies that are all
   * finished, and popping it keeps the invariant; what is reachable from it
   * is the file and what is reachable from its dependencies.
   */
  lemma FinishKeeps(fs: set<Path>, direct: Path -> Option<seq<Path>>, visiting: set<Path>, stack: seq<Path>,
                    visited: set<Path>, tree: Tree, rank: map<Path, nat>, finished: nat,
                    script: Path, deps: seq<Path>)
    requires WalkInv(fs, direct, visiting, stack, visited, tree, rank, finished)
    requires |stack| > 0 && stack[|stack| - 1] == script
    requires (forall d | d in deps :: d in tree) && Recorded(direct, script, deps)
    ensures WalkInv(fs, direct, visiting - {script}, stack[..|stack| - 1], visited + {script},
                    tree[script := deps], rank[script := finished], finished + 1)
    ensures Extends(tree, rank, tree[script := deps], rank[script := finished])
    ensures Below(tree[script := deps], rank[script := finished], script)
         == BelowAll(tree, rank, deps, finished) + {script}
  {
    RecordFinished(tree, rank, finished, script, deps);
    var stack' := stack[..|stack| - 1];
    assert stack == stack' + [script];
    var visiting', visited', tree', rank' := visiting - {script}, visited + {script}, tree[script := deps], rank[script := finished];
    assert (forall p :: p in visiting' <==> p in stack');
    assert NoDup(stack');
    assert (forall p | p in stack' :: p !in visited' && p in fs);
    assert tree'.Keys == visited';
    assert rank'.Keys == visited';
    assert (forall k | k in visited' :: k in fs);
    assert (forall k | k in rank' :: rank'[k] < finished + 1);
    assert (forall k | k in tree' :: Recorded(direct, k, tree'[k]));
  }

  /**
   * Every recorded dependency list is free of repetitions, and every file it
   * names is itself recorded.
   */
  lemma WalkTreeClosed(fs: set<Path>, direct: Path -> Option<seq<Path>>, visiting: set<Path>, stack: seq<Path>,
                       visited: set<Path>, tree: Tree, rank: map<Path, nat>, finished: nat)
    requires WalkInv(fs, direct, visiting, stack, visited, tree, rank, finished)
    ensures forall k | k in tree :: NoDup(tree[k]) && forall d | d in tree[k] :: d in tree
  {
    forall k | k in tree
      ensures NoDup(tree[k])
    {
      DedupFacts(direct(k).value);
    }
  }

  /**
   * The manifest of a finished walk lists the files it visited, other than
   * the entry, each once and after its dependencies.
   */
  lemma WalkManifest(tree: Tree, rank: map<Path, nat>, entry: Path, visited: set<Path>, m: seq<Path>)
    requires Ranked(tree, rank) && entry in tree && visited == Below(tree, rank, entry)
    requires m == Manifest(tree, entry)
    ensures NoDup(m) && DepsFirst(tree, m)
    ensures forall x :: x in m <==> x in visited && x != entry
    ensures |m| == |visited| - 1
  {
    ManifestFacts(tree, rank, entry);
  }

  /** Recording a finished file whose dependencies are all finished keeps the tree ranked. */
  lemma RecordFinished(tree: Tree, rank: map<Path, nat>, finished: nat, script: Path, deps: seq<Path>)
    requires Ranked(tree, rank) && rank.Keys == tree.Keys && script !in tree
    requires forall k | k in rank :: rank[k] < finished
    requires forall d | d in deps :: d in tree
    ensures Ranked(tree[script := deps], rank[script := finished])
    ensures Extends(tree, rank, tree[script := deps], rank[script := finished])
    ensures Below(tree[script := deps], rank[script := finished], script)
         == BelowAll(tree, rank, deps, finished) + {script}
  {
    var tree', rank' := tree[script := deps], rank[script := finished];
    assert Ranked(tree', rank');
    BelowAllStable(tree, rank, tree', rank', deps, finished);
  }

  /** After the walk from one more dependency, the files seen from the list grow by what it reaches. */
  lemma DependencyWalked(tree: Tree, rank: map<Path, nat>, finished: nat,
                         tree': Tree, rank': map<Path, nat>, finished': nat, deps: seq<Path>, dep: Path)
    requires Ranked(tree, rank) && Ranked(tree', rank') && Extends(tree, rank, tree', rank')
    requires rank.Keys == tree.Keys && rank'.Keys == tree'.Keys && finished <= finished'
    requires forall k | k in rank :: rank[k] < finished
    requires forall k | k in rank' :: rank'[k] < finished'
    requires forall d | d in deps :: d in tree
    requires dep in tree'
    ensures BelowAll(tree', rank', deps + [dep], finished')
         == BelowAll(tree, rank, deps, finished) + Below(tree', rank', dep)
  {
    BelowAllStable(tree, rank, tree', rank', deps, finished);
    BelowAllBound(tree', rank', deps, finished, finished');
    BelowAllAppend(tree', rank', deps, dep, finished');
  }

  // ---------------------------------------------------------------------
  // Why a walk fails

  /** What a walk depends on besides its own state: the file system, the search directories, the texts and `isalnum`. */
  datatype Setting = Setting(fs: set<Path>, searchPaths: seq<Path>, contents: Path -> string, isAlnum: char -> bool)

  /** The requires of the file k, as the lexer extracts them. */
  ghost function Scanned(st: Setting, k: Path): Result<seq<Require>> {
    ExtractRequires(st.contents(k), PathToString(k), st.isAlnum)
  }

  /** The file a scans and one of its requires resolves to the Lua file b. */
  ghost predicate Edge(st: Setting, a: Path, b: Path) {
    var x := Scanned(st, a);
    x.Ok? && exists i | 0 <= i < |x.value| :: Resolution(st.fs, st.searchPaths, x.value[i].name, a) == LuaFile(b)
  }

  /** s is a chain of requires starting at the entry. */
  ghost predicate Reaches(st: Setting, entry: Path, s: seq<Path>) {
    |s| > 0 && s[0] == entry && forall i | 0 <= i < |s| - 1 :: Edge(st, s[i], s[i + 1])
  }

  /** The file k scans, and `resolve` may fail with e on one of its requires. */
  ghost predicate Unresolved(st: Setting, k: Path, e: Error) {
    var x := Scanned(st, k);
    x.Ok? && exists i | 0 <= i < |x.value| ::
      var n := x.value[i].name;
      Err(e) in Outcomes(Resolution(st.fs, st.searchPaths, n, k), n, NotFound(st.searchPaths, n, k))
  }

  /**
   * The errors a walk from the entry may end with, each with its cause on a
   * chain of requires from the entry: a require that leads back into a chain
   * without repeats, a file whose text has a dynamic require, or a require
   * that does not resolve to a Lua file.
   */
  ghost predicate WalkFailure(st: Setting, entry: Path, e: Error) {
    || (exists s, p | Reaches(st, entry, s) && NoDup(s) && p in s && Edge(st, s[|s| - 1], p) :: e == CircularDependency(CycleChain(s, p)))
    || (exists s | Reaches(st, entry, s) :: Scanned(st, s[|s| - 1]) == Err(e))
    || (exists s | Reaches(st, entry, s) :: Unresolved(st, s[|s| - 1], e))
  }

  /**
   * Every file reachable from the entry scans, each of its requires
   * resolves to a Lua file, and none of them leads back into the chain that
   * reached it.
   */
  ghost predicate Analyzable(st: Setting, entry: Path) {
    forall s | Reaches(st, entry, s) ::
      var k := s[|s| - 1];
      var x := Scanned(st, k);
      && x.Ok?
      && (forall i | 0 <= i < |x.value| :: Resolution(st.fs, st.searchPaths, x.value[i].name, k).LuaFile?)
      && (forall p | p in s :: !Edge(st, k, p))
  }

  /** An analyzable project gives a walk no reason to fail. */
  lemma AnalyzableNoFailure(st: Setting, entry: Path, e: Error)
    requires Analyzable(st, entry)
    ensures !WalkFailure(st, entry, e)
  {
    forall s | Reaches(st, entry, s)
      ensures Scanned(st, s[|s| - 1]).Ok? && !Unresolved(st, s[|s| - 1], e)
      ensures forall p | p in s :: !Edge(st, s[|s| - 1], p)
    {
      var k := s[|s| - 1];
      var x := Scanned(st, k);
      forall i | 0 <= i < |x.value|
        ensures var n := x.value[i].name;
          Err(e) !in Outcomes(Resolution(st.fs, st.searchPaths, n, k), n, NotFound(st.searchPaths, n, k))
      {
        assert Resolution(st.fs, st.searchPaths, x.value[i].name, k).LuaFile?;
      }
    }
  }

  /** The failures of a walk are dependency-analysis errors of four kinds. */
  lemma WalkFailureKinds(st: Setting, entry: Path, e: Error)
    requires WalkFailure(st, entry, e)
    ensures e.CircularDependency? || e.DynamicRequire? || e.ModuleNotFound? || e.CModuleNotSupported?
    ensures e.IsAnalysisError()
  {
    if exists s | Reaches(st, entry, s) :: Unresolved(st, s[|s| - 1], e) {
      var s :| Reaches(st, entry, s) && Unresolved(st, s[|s| - 1], e);
      var k := s[|s| - 1];
      var x := Scanned(st, k);
      var i :| 0 <= i < |x.value| &&
        Err(e) in Outcomes(Resolution(st.fs, st.searchPaths, x.value[i].name, k), x.value[i].name,
                           NotFound(st.searchPaths, x.value[i].name, k));
      OutcomeMeaning(Resolution(st.fs, st.searchPaths, x.value[i].name, k), x.value[i].name,
                     NotFound(st.searchPaths, x.value[i].name, k), Err(e));
    }
  }

  /** A chain from the entry, followed by one more require, is a longer chain. */
  lemma ReachesStep(st: Setting, entry: Path, s: seq<Path>, b: Path)
    requires Reaches(st, entry, s) && Edge(st, s[|s| - 1], b)
    ensures Reaches(st, entry, s + [b])
  {
    var s' := s + [b];
    forall i | 0 <= i < |s'| - 1
      ensures Edge(st, s'[i], s'[i + 1])
    {
      if i < |s| - 1 {
        assert s'[i] == s[i] && s'[i + 1] == s[i + 1];
      }
    }
  }

  /**
   * Resolving the i-th require of the last file of a chain from the entry
   * either fails for a reason `WalkFailure` names, or extends the chain.
   */
  lemma ResolveOnChain(st: Setting, entry: Path, s: seq<Path>, reqs: seq<Require>, i: nat, r: Result<Path>)
    requires Reaches(st, entry, s) && Scanned(st, s[|s| - 1]) == Ok(reqs) && i < |reqs|
    requires var k, n := s[|s| - 1], reqs[i].name;
      r in Outcomes(Resolution(st.fs, st.searchPaths, n, k), n, NotFound(st.searchPaths, n, k))
    ensures r.Err? ==> WalkFailure(st, entry, r.error)
    ensures r.Ok? ==> Reaches(st, entry, s + [r.value])
  {
    var k, n := s[|s| - 1], reqs[i].name;
    assert Scanned(st, k).value[i] == reqs[i];
    OutcomeMeaning(Resolution(st.fs, st.searchPaths, n, k), n, NotFound(st.searchPaths, n, k), r);
    if r.Err? {
      assert Unresolved(st, k, r.error);
    } else {
      assert Edge(st, k, r.value);
      ReachesStep(st, entry, s, r.value);
    }
  }

  /** A chain of two or more files is a chain without its last file, followed by one more require. */
  lemma ReachesPrefix(st: Setting, entry: Path, s: seq<Path>, b: Path)
    requires |s| > 0 && Reaches(st, entry, s + [b])
    ensures Reaches(st, entry, s) && Edge(st, s[|s| - 1], b)
  {
    var s' := s + [b];
    assert s'[|s| - 1] == s[|s| - 1] && s'[|s|] == b;
    forall i | 0 <= i < |s| - 1
      ensures Edge(st, s[i], s[i + 1])
    {
      assert s'[i] == s[i] && s'[i + 1] == s[i + 1];
    }
  }

  /** The set algebra of one step of the walk: what was seen before, and what the step adds. */
  lemma UnionStep(base: set<Path>, x: set<Path>, y: set<Path>, v0: set<Path>, v1: set<Path>, z: set<Path>)
    requires v0 == base + x && v1 == v0 + y && z == x + y
    ensures v1 == base + z
  {
  }

  /** One more require that resolves to a Lua file extends the resolved list by that file. */
  lemma ResolvedStep(fs: set<Path>, searchPaths: seq<Path>, reqs: seq<Require>, i: nat, from: Path,
                     raw: seq<Path>, dep: Path)
    requires i < |reqs| && ResolvedAll(fs, searchPaths, reqs[..i], from) == Some(raw)
    requires Resolution(fs, searchPaths, reqs[i].name, from) == LuaFile(dep)
    ensures ResolvedAll(fs, searchPaths, reqs[..i + 1], from) == Some(raw + [dep])
  {
    assert reqs[..i + 1][..i] == reqs[..i];
  }

  /** Dedup grows by a new element and ignores a repeated one. */
  lemma DedupStep(raw: seq<Path>, d: Path)
    ensures d in Dedup(raw) ==> Dedup(raw + [d]) == Dedup(raw)
    ensures d !in Dedup(raw) ==> Dedup(raw + [d]) == Dedup(raw) + [d]
  {
    assert (raw + [d])[..|raw|] == raw;
    DedupFacts(raw);
  }

  class DependencyAnalyzer {
    const entryScript: Path
    const maxDependencies: int
    /** The file system: every resolved path that exists. */
    const fs: set<Path>
    /** The text of each file, as `read_text` gives it. */
    const contents: Path -> string
    const isAlnum: char -> bool
    const resolver: ModuleResolver

    var visited: set<Path>
    var visiting: set<Path>
    var stack: seq<Path>
    var dependencyTree: Tree
    /** Each finished file's place in the order of completion. */
    ghost var rank: map<Path, nat>
    /** How many files have been finished. */
    ghost var finished: nat

    /** The resolved requires of each file (`DirectDeps` with this analyzer's resolver and file system). */
    ghost const direct: Path -> Option<seq<Path>>
    /** What the walk depends on, for stating why it fails. */
    ghost const setting: Setting

    /** The analyzer's invariant: `WalkInv` on its fields. */
    ghost predicate Valid()
      reads this
    {
      resolver.fs == fs && WalkInv(fs, direct, visiting, stack, visited, dependencyTree, rank, finished)
    }

    /** `direct` gives the resolved requires of each file, and `setting` is this analyzer's. */
    ghost predicate Linked() {
      && (forall k {:trigger DirectDeps(resolver.fs, resolver.searchPaths, contents, isAlnum, k)} ::
            direct(k) == DirectDeps(resolver.fs, resolver.searchPaths, contents, isAlnum, k))
      && setting.fs == fs && setting.searchPaths == resolver.searchPaths
      && setting.contents == contents && setting.isAlnum == isAlnum
    }

    /**
     * Since the given state, the walk has returned to the same stack and
     * only recorded more files.
     */
    ghost predicate Walked(stack0: seq<Path>, visiting0: set<Path>, visited0: set<Path>,
                           tree0: Tree, rank0: map<Path, nat>, finished0: nat)
      reads this
    {
      stack == stack0 && visiting == visiting0 && visited0 <= visited
      && Extends(tree0, rank0, dependencyTree, rank) && finished0 <= finished
    }

    /** `__init__` once the entry is known to exist; `NewAnalyzer` does the check. */
    constructor(entry: Path, maxDependencies: int, fs: set<Path>, contents: Path -> string,
                isAlnum: char -> bool, luarocks: seq<Path>)
      requires Exists(fs, entry)
      ensures Valid() && Linked()
      ensures entryScript == Normalize(entry) && this.maxDependencies == maxDependencies
      ensures this.fs == fs && this.contents == contents && this.isAlnum == isAlnum
      ensures resolver.searchPaths == SearchPaths(fs, Parent(Normalize(entry)), luarocks)
      ensures setting == Setting(fs, SearchPaths(fs, Parent(Normalize(entry)), luarocks), contents, isAlnum)
      ensures visited == {} && visiting == {} && stack == [] && dependencyTree == map[]
    {
      entryScript := Normalize(entry);
      this.maxDependencies := maxDependencies;
      this.fs := fs;
      this.contents := contents;
      this.isAlnum := isAlnum;
      var r := new ModuleResolver(Parent(Normalize(entry)), fs, luarocks);
      NormalizeIdempotent(Parent(Normalize(entry)));
      resolver := r;
      direct := k => DirectDeps(fs, r.searchPaths, contents, isAlnum, k);
      setting := Setting(fs, r.searchPaths, contents, isAlnum);
      visited := {};
      visiting := {};
      stack := [];
      dependencyTree := map[];
      rank := map[];
      finished := 0;
    }

    /** `analyze` */
    method Analyze() returns (r: Result<seq<Path>>)
      requires Valid() && Linked() && visited == {} && stack == [] && Exists(fs, entryScript) && IsNormal(entryScript)
      modifies this
      ensures Valid()
      ensures r.Err? ==> WalkFailure(setting, entryScript, r.error)
                         || r.error == DependencyLimitExceeded(|visited| - 1, maxDependencies)
      ensures r.Ok? || r.error.DependencyLimitExceeded? ==>
                (entryScript in dependencyTree && visited == Below(dependencyTree, rank, entryScript)
                 && r == if |visited| - 1 > maxDependencies then Err(DependencyLimitExceeded(|visited| - 1, maxDependencies))
                         else Ok(Manifest(dependencyTree, entryScript)))
      ensures Analyzable(setting, entryScript) ==> r.Ok? || r.error.DependencyLimitExceeded?
      ensures r.Err? ==> r.error.IsAnalysisError()
      ensures forall k | k in dependencyTree :: NoDup(dependencyTree[k]) && forall d | d in dependencyTree[k] :: d in dependencyTree
      ensures r.Ok? ==> (NoDup(r.value) && DepsFirst(dependencyTree, r.value)
                         && (forall x :: x in r.value <==> x in visited && x != entryScript)
                         && |r.value| == |visited| - 1)
    {
      assert Reaches(setting, entryScript, stack + [entryScript]);
      var o := AnalyzeRecursive(entryScript);
      WalkTreeClosed(fs, direct, visiting, stack, visited, dependencyTree, rank, finished);
      if o.Fail? {
        WalkFailureKinds(setting, entryScript, o.error);
        r := Err(o.error);
      } else {
        var totalCount := |visited| - 1;
        if totalCount > maxDependencies {
          r := Err(DependencyLimitExceeded(totalCount, maxDependencies));
        } else {
          var manifest := GenerateManifest();
          WalkManifest(dependencyTree, rank, entryScript, visited, manifest);
          r := Ok(manifest);
        }
      }
      if r.Err? && Analyzable(setting, entryScript) {
        AnalyzableNoFailure(setting, entryScript, r.error);
      }
    }

    /** `_analyze_recursive` */
    method AnalyzeRecursive(script: Path) returns (r: Outcome)
      requires Valid() && Linked() && IsNormal(script) && Reaches(setting, entryScript, stack + [script])
      modifies this
      ensures Valid()
      ensures old(script in stack) ==> r == Fail(CircularDependency(CycleChain(old(stack), script)))
      ensures old(script !in stack && script in visited) ==> r == Pass && visited == old(visited)
      ensures old(script !in stack && script !in visited) && !Exists(fs, script) ==>
                r == Fail(ScriptNotFound(PathToString(script)))
      ensures r.Pass? ==> (Walked(old(stack), old(visiting), old(visited), old(dependencyTree), old(rank), old(finished))
                           && script in dependencyTree && visited == old(visited) + Below(dependencyTree, rank, script))
      ensures r.Fail? ==> WalkFailure(setting, entryScript, r.error)
                          || (r.error == ScriptNotFound(PathToString(script)) && !Exists(fs, script))
      decreases fs - visiting, 1
    {
      if script in stack {
        var idx := IndexOf(stack, script);
        var chain := PathStrings(stack[idx..]) + [PathToString(script)];
        ReachesPrefix(setting, entryScript, stack, script);
        assert chain == CycleChain(stack, script);
        return Fail(CircularDependency(chain));
      }
      if script in visited {
        BelowRank(dependencyTree, rank, script);
        return Pass;
      }
      if Normalize(script) !in fs {
        return Fail(ScriptNotFound(PathToString(script)));
      }
      NormalizeIdempotent(script);
      r := AnalyzeFile(script);
    }

    /** The part of `_analyze_recursive` for a file met for the first time. */
    method AnalyzeFile(script: Path) returns (r: Outcome)
      requires Valid() && Linked() && script !in stack && script !in visited && script in fs
      requires Reaches(setting, entryScript, stack + [script])
      modifies this
      ensures Valid()
      ensures r.Pass? ==> (Walked(old(stack), old(visiting), old(visited), old(dependencyTree), old(rank), old(finished))
                           && script in dependencyTree && visited == old(visited) + Below(dependencyTree, rank, script))
      ensures r.Fail? ==> WalkFailure(setting, entryScript, r.error)
      decreases fs - visiting, 0
    {
      var sourceCode := contents(script);
      var lexer := new Lexer.LuaLexer(sourceCode, PathToString(script), isAlnum);
      var found := lexer.ExtractRequires();
      assert found == ExtractRequires(sourceCode, PathToString(script), isAlnum);
      assert direct(script) == DirectDeps(resolver.fs, resolver.searchPaths, contents, isAlnum, script);
      assert found == Scanned(setting, script);
      if found.Err? {
        assert (stack + [script])[|stack + [script]| - 1] == script;
        return Fail(found.error);
      }
      Push(script);
      var dependencies;
      r, dependencies := AnalyzeRequires(script, found.value);
      if r.Fail? {
        return;
      }
      ghost var visited1, tree1, rank1, finished1 := visited, dependencyTree, rank, finished;
      Finish(script, dependencies);
      assert (old(stack) + [script])[..|old(stack)|] == old(stack);
      ExtendsTrans(old(dependencyTree), old(rank), tree1, rank1, dependencyTree, rank);
      UnionStep(old(visited), BelowAll(tree1, rank1, dependencies, finished1), {script}, visited1, visited,
                Below(dependencyTree, rank, script));
    }

    /** "Mark as currently visiting": push the file on the stack. */
    method Push(script: Path)
      requires Valid() && script !in stack && script !in visited && script in fs
      modifies this
      ensures Valid()
      ensures stack == old(stack) + [script] && visiting == old(visiting) + {script}
      ensures visited == old(visited) && dependencyTree == old(dependencyTree)
      ensures rank == old(rank) && finished == old(finished)
    {
      PushKeeps(fs, direct, visiting, stack, visited, dependencyTree, rank, finished, script);
      visiting := visiting + {script};
      stack := stack + [script];
    }

    /** The end of `_analyze_recursive`: record the file's dependencies and mark it completed. */
    method Finish(script: Path, dependencies: seq<Path>)
      requires Valid() && |stack| > 0 && stack[|stack| - 1] == script
      requires forall d | d in dependencies :: d in dependencyTree
      requires Recorded(direct, script, dependencies)
      modifies this
      ensures Valid()
      ensures stack == old(stack[..|stack| - 1]) && visiting == old(visiting) - {script}
      ensures visited == old(visited) + {script} && old(finished) <= finished
      ensures Extends(old(dependencyTree), old(rank), dependencyTree, rank) && script in dependencyTree
      ensures Below(dependencyTree, rank, script)
           == BelowAll(old(dependencyTree), old(rank), dependencies, old(finished)) + {script}
    {
      FinishKeeps(fs, direct, visiting, stack, visited, dependencyTree, rank, finished, script, dependencies);
      dependencyTree := dependencyTree[script := dependencies];
      rank := rank[script := finished];
      finished := finished + 1;
      stack := stack[..|stack| - 1];
      visiting := visiting - {script};
      visited := visited + {script};
    }

    /** The loop of `_analyze_recursive` over the requires of `script`, on top of the stack. */
    method AnalyzeRequires(script: Path, reqs: seq<Require>) returns (r: Outcome, dependencies: seq<Path>)
      requires Valid() && Linked() && |stack| > 0 && stack[|stack| - 1] == script
      requires Reaches(setting, entryScript, stack) && Scanned(setting, script) == Ok(reqs)
      modifies this
      ensures Valid()
      ensures r.Pass? ==> (Walked(old(stack), old(visiting), old(visited), old(dependencyTree), old(rank), old(finished))
                           && (forall d | d in dependencies :: d in dependencyTree)
                           && visited == old(visited) + BelowAll(dependencyTree, rank, dependencies, finished)
                           && var direct := ResolvedAll(resolver.fs, resolver.searchPaths, reqs, script);
                              direct.Some? && dependencies == Dedup(direct.value))
      ensures r.Fail? ==> WalkFailure(setting, entryScript, r.error)
      decreases fs - visiting, 3
    {
      dependencies := [];
      var seen: set<Path> := {};
      ghost var raw: seq<Path> := [];
      ghost var chain := stack;
      var i := 0;
      while i < |reqs|
        invariant 0 <= i <= |reqs|
        invariant Valid() && Walked(old(stack), old(visiting), old(visited), old(dependencyTree), old(rank), old(finished))
        invariant ResolvedAll(resolver.fs, resolver.searchPaths, reqs[..i], script) == Some(raw)
        invariant dependencies == Dedup(raw)
        invariant forall d :: d in seen <==> d in dependencies
        invariant forall d | d in dependencies :: d in dependencyTree
        invariant visited == old(visited) + BelowAll(dependencyTree, rank, dependencies, finished)
        invariant stack == chain
      {
        var depPath := resolver.Resolve(reqs[i].name, script);
        OutcomeMeaning(Resolution(resolver.fs, resolver.searchPaths, reqs[i].name, script), reqs[i].name,
                       NotFound(resolver.searchPaths, reqs[i].name, script), depPath);
        ResolveOnChain(setting, entryScript, chain, reqs, i, depPath);
        if depPath.Err? {
          return Fail(depPath.error), dependencies;
        }
        var dep := depPath.value;
        DedupStep(raw, dep);
        if dep !in seen {
          seen := seen + {dep};
          ghost var visited0, tree0, rank0, finished0 := visited, dependencyTree, rank, finished;
          r := AnalyzeDependency(dep, dependencies);
          if r.Fail? {
            return;
          }
          ExtendsTrans(old(dependencyTree), old(rank), tree0, rank0, dependencyTree, rank);
          UnionStep(old(visited), BelowAll(tree0, rank0, dependencies, finished0), Below(dependencyTree, rank, dep),
                    visited0, visited, BelowAll(dependencyTree, rank, dependencies + [dep], finished));
          dependencies := dependencies + [dep];
        }
        ResolvedStep(resolver.fs, resolver.searchPaths, reqs, i, script, raw, dep);
        raw := raw + [dep];
        i := i + 1;
      }
      assert reqs[..i] == reqs;
      r := Pass;
    }

    /** The recursive call in the loop of `_analyze_recursive`, for a dependency not seen before. */
    method AnalyzeDependency(dep: Path, dependencies: seq<Path>) returns (r: Outcome)
      requires Valid() && Linked() && IsNormal(dep) && dep in fs
      requires Reaches(setting, entryScript, stack + [dep])
      requires forall d | d in dependencies :: d in dependencyTree
      modifies this
      ensures Valid()
      ensures r.Pass? ==> (Walked(old(stack), old(visiting), old(visited), old(dependencyTree), old(rank), old(finished))
                           && dep in dependencyTree && (forall d | d in dependencies :: d in dependencyTree)
                           && visited == old(visited) + Below(dependencyTree, rank, dep)
                           && BelowAll(dependencyTree, rank, dependencies + [dep], finished)
                              == BelowAll(old(dependencyTree), old(rank), dependencies, old(finished)) + Below(dependencyTree, rank, dep))
      ensures r.Fail? ==> WalkFailure(setting, entryScript, r.error)
      decreases fs - visiting, 2
    {
      NormalizeIdempotent(dep);
      r := AnalyzeRecursive(dep);
      if r.Pass? {
        DependencyWalked(old(dependencyTree), old(rank), old(finished), dependencyTree, rank, finished, dependencies, dep);
      }
    }

    /** `_generate_manifest` */
    method GenerateManifest() returns (sortedDeps: seq<Path>)
      ensures sortedDeps == Manifest(dependencyTree, entryScript)
    {
      var visitedNodes: set<Path> := {};
      sortedDeps := [];
      visitedNodes, sortedDeps := VisitNode(entryScript, visitedNodes, sortedDeps);
      if entryScript in sortedDeps {
        sortedDeps := RemoveFirst(sortedDeps, entryScript);
      }
    }

    /** The inner `visit` of `_generate_manifest`, with its two closed-over variables threaded through. */
    method VisitNode(node: Path, visitedNodes: set<Path>, sortedDeps: seq<Path>)
      returns (visitedNodes': set<Path>, sortedDeps': seq<Path>)
      ensures (visitedNodes', sortedDeps') == Visit(dependencyTree, node, visitedNodes, sortedDeps)
      decreases dependencyTree.Keys - visitedNodes, 0
    {
      if node in visitedNodes {
        return visitedNodes, sortedDeps;
      }
      visitedNodes' := visitedNodes + {node};
      sortedDeps' := sortedDeps;
      var deps := if node in dependencyTree then dependencyTree[node] else [];
      var i := 0;
      while i < |deps|
        invariant 0 <= i <= |deps|
        invariant visitedNodes + {node} <= visitedNodes'
        invariant VisitAll(dependencyTree, deps, visitedNodes + {node}, sortedDeps)
               == VisitAll(dependencyTree, deps[i..], visitedNodes', sortedDeps')
      {
        assert deps[i..][1..] == deps[i + 1..];
        visitedNodes', sortedDeps' := VisitNode(deps[i], visitedNodes', sortedDeps');
        i := i + 1;
      }
      sortedDeps' := sortedDeps' + [node];
    }
  }

  /** `DependencyAnalyzer(entry_script, max_dependencies)`: the analyzer, or the error `__init__` raises. */
  method NewAnalyzer(fs: set<Path>, contents: Path -> string, isAlnum: char -> bool, luarocks: seq<Path>,
                     entry: Path, maxDependencies: int := DefaultMaxDependencies) returns (r: Result<DependencyAnalyzer>)
    ensures r.Err? <==> !Exists(fs, entry)
    ensures r.Err? ==> r.error == ScriptNotFound(PathToString(entry))
    ensures r.Ok? ==> (fresh(r.value) && r.value.Valid() && r.value.Linked() && r.value.stack == [] && r.value.visited == {}
                       && r.value.entryScript == Normalize(entry) && r.value.fs == fs
                       && r.value.maxDependencies == maxDependencies
                       && r.value.setting == Setting(fs, SearchPaths(fs, Parent(Normalize(entry)), luarocks), contents, isAlnum))
  {
    if Normalize(entry) !in fs {
      return Err(ScriptNotFound(PathToString(entry)));
    }
    var analyzer := new DependencyAnalyzer(entry, maxDependencies, fs, contents, isAlnum, luarocks);
    r := Ok(analyzer);
  }

  /** `analyze_dependencies` */
  method AnalyzeDependencies(fs: set<Path>, contents: Path -> string, isAlnum: char -> bool, luarocks: seq<Path>,
                             entry: Path, manualMode: bool := false, maxDependencies: int := DefaultMaxDependencies)
    returns (r: Result<seq<Path>>)
    ensures manualMode ==> r == Ok([])
    ensures !manualMode && !Exists(fs, entry) ==> r == Err(ScriptNotFound(PathToString(entry)))
    ensures !manualMode && Exists(fs, entry) ==>
              var st := Setting(fs, SearchPaths(fs, Parent(Normalize(entry)), luarocks), contents, isAlnum);
              && (r.Err? ==> WalkFailure(st, Normalize(entry), r.error)
                             || (r.error.DependencyLimitExceeded? && r.error.limit == maxDependencies
                                 && r.error.currentCount > maxDependencies))
              && (Analyzable(st, Normalize(entry)) ==> r.Ok? || r.error.DependencyLimitExceeded?)
    ensures r.Err? ==> r.error.IsAnalysisError() || r.error.ScriptNotFound?
    ensures !manualMode && r.Ok? ==>
              NoDup(r.value) && |r.value| <= maxDependencies
              && forall p | p in r.value :: p in fs && p != Normalize(entry)
  {
    if manualMode {
      return Ok([]);
    }
    var analyzer := NewAnalyzer(fs, contents, isAlnum, luarocks, entry, maxDependencies);
    if analyzer.Err? {
      return Err(analyzer.error);
    }
    NormalizeIdempotent(entry);
    r := analyzer.value.Analyze();
  }
}
