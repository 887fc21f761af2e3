// The dependency tree the analyzer records, as a map from each analysed
// file to its dependencies in first-seen order, and the post-order walk
// that turns it into the manifest. A ghost rank on the files (each file
// ranks above its dependencies) witnesses that the recorded tree has no
// cycle; the reachable set `Below` is defined by recursion on that rank.

module Graph {
  import opened Paths

  type Tree = map<Path, seq<Path>>

  predicate NoDup(s: seq<Path>) {
    forall i, j | 0 <= i < j < |s| :: s[i] != s[j]
  }

  /** The position of the first occurrence of x in s (`list.index`). */
  function IndexOf(s: seq<Path>, x: Path): (i: nat)
    requires x in s
    ensures i < |s| && s[i] == x && forall j | 0 <= j < i :: s[j] != x
  {
    if s[0] == x then 0 else 1 + IndexOf(s[1..], x)
  }

  /** A duplicate-free sequence has as many elements as its set of elements. */
  lemma {:induction false} NoDupCardinality(s: seq<Path>)
    requires NoDup(s)
    ensures |set x | x in s| == |s|
  {
    if s != [] {
      var init := s[..|s| - 1];
      assert NoDup(init);
      NoDupCardinality(init);
      var last := s[|s| - 1];
      assert last !in init;
      assert (set x | x in s) == (set x | x in init) + {last} by {
        assert s == init + [last];
      }
    }
  }

  // ---------------------------------------------------------------------
  // Ranks and reachability

  /** Each recorded file is ranked above each of its dependencies, which are recorded too. */
  ghost predicate Ranked(tree: Tree, rank: map<Path, nat>) {
    forall k | k in tree :: k in rank && forall d | d in tree[k] :: d in tree && d in rank && rank[d] < rank[k]
  }

  ghost function RankOf(rank: map<Path, nat>, n: Path): nat {
    if n in rank then rank[n] else 0
  }

  /** The files reachable from n along recorded dependencies, n included. */
  ghost function Below(tree: Tree, rank: map<Path, nat>, n: Path): set<Path>
    requires Ranked(tree, rank)
    decreases RankOf(rank, n), 1
  {
    if n in tree then {n} + BelowAll(tree, rank, tree[n], RankOf(rank, n)) else {n}
  }

  /** The files reachable from any of ds; `bound` exceeds the rank of each of them. */
  ghost function BelowAll(tree: Tree, rank: map<Path, nat>, ds: seq<Path>, bound: nat): set<Path>
    requires Ranked(tree, rank)
    requires forall d | d in ds :: d in tree && d in rank && rank[d] < bound
    decreases bound, 0, |ds|
  {
    if ds == [] then {} else Below(tree, rank, ds[0]) + BelowAll(tree, rank, ds[1..], bound)
  }

  /** What is reachable from a recorded file is recorded and ranked no higher. */
  lemma {:induction false} BelowRank(tree: Tree, rank: map<Path, nat>, n: Path)
    requires Ranked(tree, rank) && n in tree
    ensures forall x | x in Below(tree, rank, n) :: x in tree && x in rank && rank[x] <= rank[n]
    decreases rank[n], 1
  {
    BelowAllRank(tree, rank, tree[n], rank[n]);
  }

  lemma {:induction false} BelowAllRank(tree: Tree, rank: map<Path, nat>, ds: seq<Path>, bound: nat)
    requires Ranked(tree, rank)
    requires forall d | d in ds :: d in tree && d in rank && rank[d] < bound
    ensures forall x | x in BelowAll(tree, rank, ds, bound) :: x in tree && x in rank && rank[x] < bound
    decreases bound, 0, |ds|
  {
    if ds != [] {
      BelowRank(tree, rank, ds[0]);
      BelowAllRank(tree, rank, ds[1..], bound);
    }
  }

  /** The bound only serves termination. */
  lemma {:induction false} BelowAllBound(tree: Tree, rank: map<Path, nat>, ds: seq<Path>, b1: nat, b2: nat)
    requires Ranked(tree, rank)
    requires forall d | d in ds :: d in tree && d in rank && rank[d] < b1 && rank[d] < b2
    ensures BelowAll(tree, rank, ds, b1) == BelowAll(tree, rank, ds, b2)
    decreases |ds|
  {
    if ds != [] {
      BelowAllBound(tree, rank, ds[1..], b1, b2);
    }
  }

  /** Each of ds is reachable from ds. */
  lemma {:induction false} BelowAllHas(tree: Tree, rank: map<Path, nat>, ds: seq<Path>, bound: nat)
    requires Ranked(tree, rank)
    requires forall d | d in ds :: d in tree && d in rank && rank[d] < bound
    ensures forall d | d in ds :: d in BelowAll(tree, rank, ds, bound)
    decreases |ds|
  {
    if ds != [] {
      BelowAllHas(tree, rank, ds[1..], bound);
      assert forall d | d in ds :: d == ds[0] || d in ds[1..];
    }
  }

  /** Walking one more dependency adds what is reachable from it. */
  lemma {:induction false} BelowAllAppend(tree: Tree, rank: map<Path, nat>, ds: seq<Path>, d: Path, bound: nat)
    requires Ranked(tree, rank)
    requires forall x | x in ds + [d] :: x in tree && x in rank && rank[x] < bound
    ensures BelowAll(tree, rank, ds + [d], bound) == BelowAll(tree, rank, ds, bound) + Below(tree, rank, d)
    decreases |ds|
  {
    if ds == [] {
      assert [] + [d] == [d] && [d][1..] == [];
    } else {
      assert (ds + [d])[1..] == ds[1..] + [d];
      assert forall x | x in ds[1..] + [d] :: x in ds + [d];
      BelowAllAppend(tree, rank, ds[1..], d, bound);
    }
  }

  /** `tree'` records more files, and the ones `tree` records the same way. */
  ghost predicate Extends(tree: Tree, rank: map<Path, nat>, tree': Tree, rank': map<Path, nat>) {
    (forall k | k in tree :: k in tree' && tree'[k] == tree[k])
    && forall k | k in rank :: k in rank' && rank'[k] == rank[k]
  }

  lemma ExtendsTrans(t0: Tree, r0: map<Path, nat>, t1: Tree, r1: map<Path, nat>, t2: Tree, r2: map<Path, nat>)
    requires Extends(t0, r0, t1, r1) && Extends(t1, r1, t2, r2)
    ensures Extends(t0, r0, t2, r2)
  {
  }

  /** Recording more files leaves what is reachable from the old ones as it was. */
  lemma {:induction false} BelowStable(tree: Tree, rank: map<Path, nat>, tree': Tree, rank': map<Path, nat>, n: Path)
    requires Ranked(tree, rank) && Ranked(tree', rank') && Extends(tree, rank, tree', rank') && n in tree
    ensures Below(tree', rank', n) == Below(tree, rank, n)
    decreases rank[n], 1
  {
    BelowAllStable(tree, rank, tree', rank', tree[n], rank[n]);
  }

  lemma {:induction false} BelowAllStable(tree: Tree, rank: map<Path, nat>, tree': Tree, rank': map<Path, nat>,
                                          ds: seq<Path>, bound: nat)
    requires Ranked(tree, rank) && Ranked(tree', rank') && Extends(tree, rank, tree', rank')
    requires forall d | d in ds :: d in tree && d in rank && rank[d] < bound
    ensures BelowAll(tree', rank', ds, bound) == BelowAll(tree, rank, ds, bound)
    decreases bound, 0, |ds|
  {
    if ds != [] {
      BelowStable(tree, rank, tree', rank', ds[0]);
      BelowAllStable(tree, rank, tree', rank', ds[1..], bound);
    }
  }

  // ---------------------------------------------------------------------
  // Listings in dependency order

  /** Every recorded dependency of a listed file is listed. */
  predicate DepsListed(tree: Tree, out: seq<Path>) {
    forall i | 0 <= i < |out| && out[i] in tree :: forall d | d in tree[out[i]] :: d in out
  }

  /** Each listed file comes after all of its recorded dependencies. */
  predicate DepsFirst(tree: Tree, out: seq<Path>) {
    forall i, j | 0 <= i < |out| && 0 <= j < |out| && out[i] in tree && out[j] in tree[out[i]] :: j < i
  }

  /** A topologically sorted listing without repetitions. */
  predicate Listing(tree: Tree, out: seq<Path>) {
    NoDup(out) && DepsListed(tree, out) && DepsFirst(tree, out)
  }

  /** A file whose dependencies are all listed may be listed next. */
  lemma ListingAppend(tree: Tree, out: seq<Path>, n: Path)
    requires Listing(tree, out) && n !in out
    requires n in tree ==> forall d | d in tree[n] :: d in out
    ensures Listing(tree, out + [n])
  {
    var out' := out + [n];
    forall i, j | 0 <= i < |out'| && 0 <= j < |out'| && out'[i] in tree && out'[j] in tree[out'[i]]
      ensures j < i
    {
      if i < |out| {
        assert out'[i] == out[i];
        assert out'[j] in out;
      } else {
        assert out'[j] in out;
      }
    }
  }

  /** Everything reachable from a listed file is listed. */
  lemma {:induction false} BelowListed(tree: Tree, rank: map<Path, nat>, out: seq<Path>, n: Path)
    requires Ranked(tree, rank) && DepsListed(tree, out) && n in out && n in tree
    ensures forall x | x in Below(tree, rank, n) :: x in out
    decreases rank[n], 1
  {
    var i := IndexOf(out, n);
    assert forall d | d in tree[n] :: d in out;
    BelowAllListed(tree, rank, out, tree[n], rank[n]);
  }

  lemma {:induction false} BelowAllListed(tree: Tree, rank: map<Path, nat>, out: seq<Path>, ds: seq<Path>, bound: nat)
    requires Ranked(tree, rank) && DepsListed(tree, out)
    requires forall d | d in ds :: d in tree && d in rank && rank[d] < bound && d in out
    ensures forall x | x in BelowAll(tree, rank, ds, bound) :: x in out
    decreases bound, 0, |ds|
  {
    if ds != [] {
      BelowListed(tree, rank, out, ds[0]);
      BelowAllListed(tree, rank, out, ds[1..], bound);
    }
  }

  // ---------------------------------------------------------------------
  // The post-order walk of `_generate_manifest`

  /**
   * `visit(node)`: a file not seen before is marked, its dependencies are
   * walked in order, and then it is listed. The seen set and the listing
   * are threaded through.
   */
  function Visit(tree: Tree, n: Path, seen: set<Path>, out: seq<Path>): (r: (set<Path>, seq<Path>))
    ensures seen <= r.0
    decreases tree.Keys - seen, 0, 0
  {
    if n in seen then (seen, out)
    else if n in tree then
      var r := VisitAll(tree, tree[n], seen + {n}, out);
      (r.0, r.1 + [n])
    else (seen + {n}, out + [n])
  }

  /** The `for dep in ...: visit(dep)` loop. */
  function VisitAll(tree: Tree, ds: seq<Path>, seen: set<Path>, out: seq<Path>): (r: (set<Path>, seq<Path>))
    ensures seen <= r.0
    decreases tree.Keys - seen, 1, |ds|
  {
    if ds == [] then (seen, out)
    else
      var r := Visit(tree, ds[0], seen, out);
      VisitAll(tree, ds[1..], r.0, r.1)
  }

  /**
   * The walk from a recorded file n lists what is reachable from n and not
   * listed yet, after what was listed, keeping the listing sorted, provided
   * every file seen but not listed (an ancestor of n on the walk) ranks
   * above n.
   */
  lemma {:induction false} VisitFacts(tree: Tree, rank: map<Path, nat>, n: Path, seen: set<Path>, out: seq<Path>)
    requires Ranked(tree, rank) && n in tree
    requires Listing(tree, out) && forall x | x in out :: x in seen
    requires forall x | x in seen && x !in out :: x in rank && rank[n] < rank[x]
    ensures var r := Visit(tree, n, seen, out);
      Listing(tree, r.1) && |out| <= |r.1| && r.1[..|out|] == out
      && (forall x :: x in r.1 <==> x in out || x in Below(tree, rank, n))
      && r.0 == seen + Below(tree, rank, n)
    decreases rank[n], 1
  {
    if n in seen {
      BelowListed(tree, rank, out, n);
    } else {
      var r := VisitAll(tree, tree[n], seen + {n}, out);
      VisitAllFacts(tree, rank, tree[n], rank[n], seen + {n}, out);
      BelowAllRank(tree, rank, tree[n], rank[n]);
      BelowAllHas(tree, rank, tree[n], rank[n]);
      ListingAppend(tree, r.1, n);
      assert (r.1 + [n])[..|out|] == r.1[..|out|];
    }
  }

  lemma {:induction false} VisitAllFacts(tree: Tree, rank: map<Path, nat>, ds: seq<Path>, bound: nat,
                                         seen: set<Path>, out: seq<Path>)
    requires Ranked(tree, rank)
    requires forall d | d in ds :: d in tree && d in rank && rank[d] < bound
    requires Listing(tree, out) && forall x | x in out :: x in seen
    requires forall x | x in seen && x !in out :: x in rank && bound <= rank[x]
    ensures var r := VisitAll(tree, ds, seen, out);
      Listing(tree, r.1) && |out| <= |r.1| && r.1[..|out|] == out
      && (forall x :: x in r.1 <==> x in out || x in BelowAll(tree, rank, ds, bound))
      && r.0 == seen + BelowAll(tree, rank, ds, bound)
    decreases bound, 0, |ds|
  {
    if ds != [] {
      var r1 := Visit(tree, ds[0], seen, out);
      VisitFacts(tree, rank, ds[0], seen, out);
      var rest := ds[1..];
      assert forall d | d in rest :: d in ds;
      VisitAllFacts(tree, rank, rest, bound, r1.0, r1.1);
      var r := VisitAll(tree, rest, r1.0, r1.1);
      assert r.1[..|out|] == r.1[..|r1.1|][..|out|];
    }
  }

  /** `list.remove(x)`: drop the first occurrence of x, if any. */
  function RemoveFirst(s: seq<Path>, x: Path): (r: seq<Path>)
    ensures x in s ==> |r| == |s| - 1 && r == s[..IndexOf(s, x)] + s[IndexOf(s, x) + 1..]
    ensures x !in s ==> r == s
  {
    if s == [] then []
    else if s[0] == x then s[1..]
    else
      assert x in s[1..] ==>
        var i := IndexOf(s[1..], x); s[..i + 1] == [s[0]] + s[1..][..i] && s[i + 2..] == s[1..][i + 1..];
      [s[0]] + RemoveFirst(s[1..], x)
  }

  lemma {:induction false} RemoveFirstLast(s: seq<Path>, x: Path)
    requires NoDup(s) && |s| > 0 && s[|s| - 1] == x
    ensures RemoveFirst(s, x) == s[..|s| - 1]
  {
    if |s| > 1 {
      assert s[0] != x;
      assert NoDup(s[1..]) && s[1..][|s| - 2] == x;
      RemoveFirstLast(s[1..], x);
      assert s[..|s| - 1] == [s[0]] + s[1..][..|s| - 2];
    }
  }

  /** `_generate_manifest`: the walk from the entry, without the entry. */
  function Manifest(tree: Tree, entry: Path): seq<Path> {
    RemoveFirst(Visit(tree, entry, {}, []).1, entry)
  }

  /**
   * On a tree the rank orders, the manifest lists each file reachable from
   * the entry other than the entry itself exactly once, every file after
   * all of its dependencies.
   */
  lemma ManifestFacts(tree: Tree, rank: map<Path, nat>, entry: Path)
    requires Ranked(tree, rank) && entry in tree
    ensures var m := Manifest(tree, entry);
      NoDup(m) && DepsFirst(tree, m)
      && (forall x :: x in m <==> x in Below(tree, rank, entry) && x != entry)
      && |m| == |Below(tree, rank, entry)| - 1
  {
    var all := Visit(tree, entry, {}, []).1;
    WalkEndsWithEntry(tree, rank, entry);
    var m := all[..|all| - 1];
    assert NoDup(m);
    assert DepsFirst(tree, m) by {
      forall i, j | 0 <= i < |m| && 0 <= j < |m| && m[i] in tree && m[j] in tree[m[i]]
        ensures j < i
      {
        assert all[i] == m[i] && all[j] == m[j];
      }
    }
    forall x
      ensures x in m <==> x in Below(tree, rank, entry) && x != entry
    {
      if x in m {
        var k := IndexOf(m, x);
        assert all[k] == x;
      }
      if x in all && x != entry {
        var k := IndexOf(all, x);
        assert m[k] == x;
      }
    }
    NoDupCardinality(m);
    assert (set x | x in m) == Below(tree, rank, entry) - {entry};
  }

  /** The walk from the entry lists the entry last, so the manifest is the walk without its last file. */
  lemma WalkEndsWithEntry(tree: Tree, rank: map<Path, nat>, entry: Path)
    requires Ranked(tree, rank) && entry in tree
    ensures var all := Visit(tree, entry, {}, []).1;
      |all| > 0 && all[|all| - 1] == entry && Manifest(tree, entry) == all[..|all| - 1]
      && Listing(tree, all) && forall x :: x in all <==> x in Below(tree, rank, entry)
  {
    VisitFacts(tree, rank, entry, {}, []);
    var rv := VisitAll(tree, tree[entry], {} + {entry}, []);
    assert Visit(tree, entry, {}, []).1 == rv.1 + [entry];
    RemoveFirstLast(Visit(tree, entry, {}, []).1, entry);
  }

  // ---------------------------------------------------------------------
  // First-seen de-duplication of `_analyze_recursive`

  /** The elements of s in order of first occurrence, each once. */
  function Dedup(s: seq<Path>): seq<Path> {
    if s == [] then []
    else
      var d := Dedup(s[..|s| - 1]);
      if s[|s| - 1] in d then d else d + [s[|s| - 1]]
  }

  /** De-duplication keeps every element, adds none and repeats none. */
  lemma {:induction false} DedupFacts(s: seq<Path>)
    ensures NoDup(Dedup(s))
    ensures forall x :: x in Dedup(s) <==> x in s
  {
    if s != [] {
      var init := s[..|s| - 1];
      DedupFacts(init);
      assert s == init + [s[|s| - 1]];
    }
  }

  /** Elements stand in the order of their first occurrences. */
  lemma {:induction false} DedupFirstSeen(s: seq<Path>)
    ensures forall i, j | 0 <= i < j < |Dedup(s)| ::
      Dedup(s)[i] in s && Dedup(s)[j] in s && IndexOf(s, Dedup(s)[i]) < IndexOf(s, Dedup(s)[j])
  {
    if s != [] {
      var init := s[..|s| - 1];
      var last := s[|s| - 1];
      DedupFirstSeen(init);
      DedupFacts(init);
      var d := Dedup(init);
      assert s == init + [last];
      forall x | x in init
        ensures IndexOf(s, x) == IndexOf(init, x)
      {
        IndexOfPrefix(init, [last], x);
      }
      if last !in d {
        assert last !in init;
        assert IndexOf(s, last) == |s| - 1;
        forall i | 0 <= i < |d|
          ensures IndexOf(s, d[i]) < |s| - 1
        {
          assert d[i] in init;
        }
      }
    }
  }

  lemma {:induction false} IndexOfPrefix(a: seq<Path>, b: seq<Path>, x: Path)
    requires x in a
    ensures IndexOf(a + b, x) == IndexOf(a, x)
  {
    if a[0] != x {
      assert (a + b)[1..] == a[1..] + b;
      IndexOfPrefix(a[1..], b, x);
    }
  }
}
