/** The later variant of the tool (src/gmake.cpp): string helpers, the
    include extractor, the graph builder, the source filter and the
    transitive-dependency walk that lists each object file's prerequisites. */
module FsGmake {
  import opened Wrappers
  import opened Strings
  import opened Paths
  import opened Graphs
  import opened Resolver

  /** `EXTS_SRC`: the extensions of compilation units. */
  const ExtsSrc: seq<string> := [".cpp", ".c++", ".cxx", ".cp", ".cc"]
  /** `INCLUDE_STMT`. */
  const IncludeStmt: string := "#include"
  /** `INCLUDE_L_DLMTR` and `INCLUDE_R_DLMTR`, both a double quote. */
  const Quote: string := "\""

  // ---------------------------------------------------------------------
  // String helpers

  /** `str.erase(pos, sub.size())`. */
  function Cut(s: string, sub: string, pos: int): (r: string)
    requires 0 <= pos && pos + |sub| <= |s|
    ensures |r| + |sub| == |s|
  {
    s[..pos] + s[pos + |sub|..]
  }

  /** What `eraseAll` leaves: the first occurrence of `sub` cut out, again
      and again, until none is left. */
  function Erased(s: string, sub: string): (r: string)
    requires |sub| > 0
    decreases |s|
  {
    var pos := Find(s, sub, 0);
    if pos == -1 then s else Erased(Cut(s, sub, pos), sub)
  }

  /** Nothing of `sub` is left once `eraseAll` stops. */
  lemma {:induction false} ErasedHasNoOccurrence(s: string, sub: string)
    requires |sub| > 0
    ensures forall i :: !OccursAt(Erased(s, sub), sub, i)
    decreases |s|
  {
    var pos := Find(s, sub, 0);
    if pos != -1 {
      ErasedHasNoOccurrence(Cut(s, sub, pos), sub);
    }
  }

  /** `eraseAll(str, sub)`. With an empty `sub` the source never stops
      (`find("")` is always 0), so `sub` must not be empty. */
  method EraseAll(str: string, sub: string) returns (r: string)
    requires |sub| > 0
    ensures r == Erased(str, sub)
  {
    ghost var goal := Erased(str, sub);
    r := str;
    var pos := Find(r, sub, 0);
    while pos != -1
      invariant pos == Find(r, sub, 0)
      invariant Erased(r, sub) == goal
      decreases |r|
    {
      r := Cut(r, sub, pos);
      pos := Find(r, sub, 0);
    }
  }

  /** Erasing " " removes every space and keeps every other character in
      its order. */
  lemma {:induction false} ErasedSpaces(s: string)
    ensures Erased(s, " ") == Without(s, ' ')
    decreases |s|
  {
    var pos := Find(s, " ", 0);
    if pos == -1 {
      forall i | 0 <= i < |s| ensures s[i] != ' ' {
        OccursAtChar(s, ' ', i);
      }
      WithoutAbsent(s, ' ');
    } else {
      var rest := Cut(s, " ", pos);
      ErasedSpaces(rest);
      OccursAtChar(s, ' ', pos);
      assert s == s[..pos] + ([s[pos]] + s[pos + 1..]);
      WithoutAppend(s[..pos], [s[pos]] + s[pos + 1..], ' ');
      WithoutAppend([s[pos]], s[pos + 1..], ' ');
      WithoutAppend(s[..pos], s[pos + 1..], ' ');
    }
  }

  /** `startWith`: `find(sub) == 0`. */
  function StartWith(str: string, sub: string): (r: bool)
    ensures r <==> sub <= str
  {
    Find(str, sub, 0) == 0
  }

  /** `endWith`. */
  function EndWith(str: string, sub: string): (r: bool)
    ensures |str| < |sub| ==> !r
    ensures r <==> |sub| <= |str| && forall k :: 0 <= k < |sub| ==> str[|str| - |sub| + k] == sub[k]
  {
    |str| >= |sub| && str[|str| - |sub|..] == sub
  }

  /** `contains`: a linear search, as `std::find` does it. */
  function Contains<T(==)>(v: seq<T>, value: T): (r: bool)
    ensures r <==> value in v
  {
    if v == [] then false else v[0] == value || Contains(v[1..], value)
  }

  /** Whether `uid` ends with one of `exts`, trying them in order. */
  function EndWithAny(uid: string, exts: seq<string>): (r: bool)
    ensures r <==> exists k :: 0 <= k < |exts| && EndWith(uid, exts[k])
  {
    if exts == [] then false
    else EndWith(uid, exts[0]) || EndWithAny(uid, exts[1..])
  }

  /** `isSrc`: the node's uid ends with a source extension, which is to
      say its extension is one of `EXTS_SRC`. */
  function IsSrc(uid: string): (r: bool)
    ensures r <==> Extension(uid) in ExtsSrc
  {
    SrcSuffixIsExtension(uid);
    EndWithAny(uid, ExtsSrc)
  }

  /** Each source extension is a '.' followed by characters other than '.'
      and '/'. */
  lemma ExtsSrcShape(k: nat)
    requires k < |ExtsSrc|
    ensures |ExtsSrc[k]| >= 2 && ExtsSrc[k][0] == '.'
    ensures forall j :: 1 <= j < |ExtsSrc[k]| ==> ExtsSrc[k][j] != '.' && ExtsSrc[k][j] != '/'
  {
  }

  /** A uid ends with a source extension exactly when its extension is
      one of `EXTS_SRC`: the suffix test of `isSrc` and the extension test
      of `getDependencyGraph` agree. */
  lemma SrcSuffixIsExtension(uid: string)
    ensures EndWithAny(uid, ExtsSrc) <==> Extension(uid) in ExtsSrc
  {
    forall k | 0 <= k < |ExtsSrc| ensures EndWith(uid, ExtsSrc[k]) <==> Extension(uid) == ExtsSrc[k] {
      EndsWithSrcExtension(uid, k);
    }
  }

  /** `uid` ends with source extension `k` exactly when that is its
      extension. */
  lemma EndsWithSrcExtension(uid: string, k: nat)
    requires k < |ExtsSrc|
    ensures EndWith(uid, ExtsSrc[k]) <==> Extension(uid) == ExtsSrc[k]
  {
    ExtsSrcShape(k);
    ExtensionIsSuffix(uid, ExtsSrc[k]);
  }

  // ---------------------------------------------------------------------
  // Include extraction

  /** The include target one line contributes in `readFileDependencies`:
      after removing the spaces, a line that starts with `#include` yields
      the text between its first quote and the next one. */
  function LineDependency(line: string): Option<string>
  {
    Quoted(Erased(line, " "))
  }

  /** The target of a line `l` that has no spaces left. */
  function Quoted(l: string): Option<string>
  {
    if !StartWith(l, IncludeStmt) then None
    else
      var ld := Find(l, Quote, 0);
      var rd := Find(l, Quote, ld + 1);
      if ld != -1 && rd != -1 && ld != rd then Some(l[ld + 1..rd]) else None
  }

  /** Positions `i < j` hold the first two double quotes of `l`. */
  ghost predicate FirstQuotes(l: string, i: int, j: int)
  {
    0 <= i < j < |l| && l[i] == '"' && l[j] == '"'
    && (forall k :: 0 <= k < i ==> l[k] != '"')
    && (forall k :: i < k < j ==> l[k] != '"')
  }

  /** A line yields a target exactly when, without its spaces, it starts
      with `#include` and holds two double quotes; the target is the text
      between the first two. */
  lemma LineDependencyBetweenQuotes(line: string)
    ensures var l := Without(line, ' ');
      LineDependency(line).Some? <==>
        IncludeStmt <= l && exists i, j :: 0 <= i < j < |l| && l[i] == '"' && l[j] == '"'
    ensures var l := Without(line, ' ');
      LineDependency(line).Some? ==>
        exists i, j :: FirstQuotes(l, i, j) && LineDependency(line).value == l[i + 1..j]
  {
    ErasedSpaces(line);
    var l := Without(line, ' ');
    QuotedHasTwoQuotes(l);
    QuotedIsFirstPair(l);
  }

  /** A space-free line yields a target exactly when it starts with
      `#include` and holds two double quotes. */
  lemma QuotedHasTwoQuotes(l: string)
    ensures Quoted(l).Some? <==>
      IncludeStmt <= l && exists i, j :: 0 <= i < j < |l| && l[i] == '"' && l[j] == '"'
  {
    var ld := Find(l, Quote, 0);
    FindChar(l, '"', 0);
    var rd := Find(l, Quote, ld + 1);
    FindChar(l, '"', ld + 1);
    if exists i, j :: 0 <= i < j < |l| && l[i] == '"' && l[j] == '"' {
      var i, j :| 0 <= i < j < |l| && l[i] == '"' && l[j] == '"';
      assert ld != -1 && ld <= i;
      assert rd != -1;
    }
  }

  /** The target of a space-free line is the text between its first two
      double quotes. */
  lemma QuotedIsFirstPair(l: string)
    ensures Quoted(l).Some? ==> exists i, j :: FirstQuotes(l, i, j) && Quoted(l).value == l[i + 1..j]
  {
    var ld := Find(l, Quote, 0);
    FindChar(l, '"', 0);
    var rd := Find(l, Quote, ld + 1);
    FindChar(l, '"', ld + 1);
    if Quoted(l).Some? {
      assert FirstQuotes(l, ld, rd);
    }
  }

  /** A target holds neither a double quote nor a space. */
  lemma LineDependencyClean(line: string)
    ensures LineDependency(line).Some? ==>
      '"' !in LineDependency(line).value && ' ' !in LineDependency(line).value
  {
    LineDependencyBetweenQuotes(line);
    var l := Without(line, ' ');
    if LineDependency(line).Some? {
      var d := LineDependency(line).value;
      var i, j :| FirstQuotes(l, i, j) && d == l[i + 1..j];
      forall k | 0 <= k < |d| ensures d[k] != '"' && d[k] != ' ' {
        assert d[k] == l[i + 1 + k] && l[i + 1 + k] in l;
      }
    }
  }

  /** The body of `readFileDependencies`'s loop for one line. */
  method ReadLine(raw: string) returns (dep: Option<string>)
    ensures dep == LineDependency(raw)
  {
    var line := EraseAll(raw, " ");
    dep := None;
    if StartWith(line, IncludeStmt) {
      var ld := Find(line, Quote, 0);
      var rd := Find(line, Quote, ld + 1);
      if ld != -1 && rd != -1 && ld != rd {
        dep := Some(line[ld + 1..rd]);
      }
    }
  }

  /** `readFileDependencies`: `file` is the file's lines, or `None` when it
      cannot be opened, in which case `deps` is left alone and the result is
      false. Otherwise each line's target is appended to `deps`, in line
      order. */
  method ReadFileDependencies(file: Option<seq<string>>, deps: seq<string>) returns (ok: bool, result: seq<string>)
    ensures ok == file.Some?
    ensures result == if ok then deps + Extracted(LineDependency, file.value) else deps
  {
    if file.None? {
      return false, deps;
    }
    var lines := file.value;
    result := deps;
    for n := 0 to |lines|
      invariant result == deps + Extracted(LineDependency, lines[..n])
    {
      assert lines[..n + 1][..n] == lines[..n];
      var dep := ReadLine(lines[n]);
      if dep.Some? {
        result := result + [dep.value];
      }
    }
    assert lines[..|lines|] == lines;
    return true, result;
  }

  // ---------------------------------------------------------------------
  // Graph construction

  /** This variant scans the source extensions and the header extensions
      `extsHdr`, extracts with `LineDependency`, and gives every scanned file
      a node. */
  function FsRules(extsHdr: seq<string>): Rules
  {
    Rules(p => Scanned(extsHdr, p), LineDependency, true)
  }

  /** Whether `getDependencyGraph` scans the file at `p`. */
  predicate Scanned(extsHdr: seq<string>, p: string)
  {
    var extension := Extension(p);
    Contains(ExtsSrc, extension) || Contains(extsHdr, extension)
  }

  /** `getDependencyGraph` over the inventory `paths` (the directory walk's
      result); `extsHdr` stands for `EXTS_HDR`. */
  method GetDependencyGraph(paths: seq<FileEntry>, extsHdr: seq<string>) returns (graph: Graph)
    ensures fresh(graph)
    ensures graph.Model() == Build(paths, FsRules(extsHdr))
  {
    graph := new Graph();
    for i := 0 to |paths|
      invariant fresh(graph)
      invariant graph.Model() == BuildUpTo(paths, FsRules(extsHdr), i)
    {
      ScanOneFile(graph, paths, extsHdr, paths[i]);
    }
  }

  /** The body of `getDependencyGraph`'s loop, for one inventory file. */
  method ScanOneFile(graph: Graph, paths: seq<FileEntry>, extsHdr: seq<string>, file: FileEntry)
    modifies graph
    ensures graph.Model() == ScanFile(old(graph.Model()), paths, FsRules(extsHdr), file)
  {
    var extension := Extension(file.path);
    if Contains(ExtsSrc, extension) || Contains(extsHdr, extension) {
      graph.AddNode(file.path);
      var ok, dependencies := ReadFileDependencies(file.lines, []);
      if ok {
        assert dependencies == Extracted(LineDependency, file.lines.value);
        ConnectDependencies(graph, paths, file.path, dependencies);
      }
    }
  }

  /** The graph of an inventory without repeated paths: every file with a
      source or header extension is a node, and its out-edges are its
      resolved include targets in line order when it could be read, none
      otherwise; every node is an inventory file. */
  lemma GraphShape(paths: seq<FileEntry>, extsHdr: seq<string>)
    requires DistinctPaths(paths)
    ensures Build(paths, FsRules(extsHdr)).Valid()
    ensures forall u :: u in Build(paths, FsRules(extsHdr)).adj ==> u in PathsOf(paths)
    ensures forall i :: 0 <= i < |paths| && (Extension(paths[i].path) in ExtsSrc || Extension(paths[i].path) in extsHdr) ==>
      paths[i].path in Build(paths, FsRules(extsHdr)).adj
    ensures forall i :: 0 <= i < |paths| ==>
      Build(paths, FsRules(extsHdr)).Out(paths[i].path) ==
        if (Extension(paths[i].path) in ExtsSrc || Extension(paths[i].path) in extsHdr) && paths[i].lines.Some?
        then Resolve(paths, Extracted(LineDependency, paths[i].lines.value))
        else []
  {
    var rules := FsRules(extsHdr);
    forall p ensures rules.scan(p) <==> Extension(p) in ExtsSrc || Extension(p) in extsHdr { }
    BuildOut(paths, rules);
    forall i | 0 <= i < |paths| && rules.scan(paths[i].path)
      ensures paths[i].path in Build(paths, rules).adj
    {
      ScannedHasNode(paths, rules, i);
    }
  }

  // ---------------------------------------------------------------------
  // Rule planning

  /** `std::string`'s `operator<`: strict lexicographic order. */
  predicate Below(a: string, b: string)
  {
    b != [] && (a == [] || a[0] < b[0] || (a[0] == b[0] && Below(a[1..], b[1..])))
  }

  /** The order in which a `std::map` keyed by path visits its keys. */
  ghost predicate StrictlySorted(keys: seq<string>)
  {
    forall i, j :: 0 <= i < j < |keys| ==> Below(keys[i], keys[j])
  }

  /** `filterGraph`: of the keys of the graph's map, visited in the map's
      order (`all`), those that pass `filter`. */
  method FilterGraph(all: seq<string>, filter: string -> bool) returns (filtered: seq<string>)
    requires StrictlySorted(all)
    ensures forall u :: u in filtered <==> u in all && filter(u)
    ensures StrictlySorted(filtered)
  {
    filtered := [];
    ghost var from: seq<nat> := [];
    for i := 0 to |all|
      invariant |from| == |filtered|
      invariant forall a :: 0 <= a < |from| ==> from[a] < i && filtered[a] == all[from[a]]
      invariant forall a, b :: 0 <= a < b < |from| ==> from[a] < from[b]
      invariant forall u :: u in filtered <==> u in all[..i] && filter(u)
    {
      assert all[..i + 1] == all[..i] + [all[i]];
      if filter(all[i]) {
        filtered := filtered + [all[i]];
        from := from + [i];
      }
    }
    assert all[..|all|] == all;
    forall a, b | 0 <= a < b < |filtered| ensures Below(filtered[a], filtered[b]) {
      assert filtered[a] == all[from[a]] && filtered[b] == all[from[b]];
    }
  }

  /** `getDeepDependencies`: for each out-edge of `entry`, in insertion
      order, its target followed by the target's own deep dependencies.
      There is no visited set: a node reached along several paths is listed
      once per path, and on a cycle the source recurses without end, so
      `rank` must witness that no cycle is reachable from `entry`. */
  function DeepDependencies(graph: Adjacency, ghost rank: map<string, nat>, entry: string): seq<string>
    requires Ranked(graph, rank) && entry in rank
    decreases rank[entry], 1
  {
    DeepOf(graph, rank, rank[entry], graph[entry])
  }

  /** The part of the walk contributed by the out-edges `out`. */
  function DeepOf(graph: Adjacency, ghost rank: map<string, nat>, ghost bound: nat, out: seq<string>): seq<string>
    requires Ranked(graph, rank)
    requires forall v :: v in out ==> v in rank && rank[v] < bound
    decreases bound, 0, |out|
  {
    if out == [] then []
    else
      var v := out[|out| - 1];
      DeepOf(graph, rank, bound, out[..|out| - 1]) + [v] + DeepDependencies(graph, rank, v)
  }

  /** `getDeepDependencies` as the source runs it: a loop over the
      out-edges with a recursive call per edge. */
  method GetDeepDependencies(graph: Adjacency, ghost rank: map<string, nat>, entry: string) returns (deps: seq<string>)
    requires Ranked(graph, rank) && entry in rank
    ensures deps == DeepDependencies(graph, rank, entry)
    decreases rank[entry]
  {
    deps := [];
    var out := graph[entry];
    for i := 0 to |out|
      invariant deps == DeepOf(graph, rank, rank[entry], out[..i])
    {
      assert out[..i + 1][..i] == out[..i];
      deps := deps + [out[i]];
      var tmp := GetDeepDependencies(graph, rank, out[i]);
      deps := deps + tmp;
    }
    assert out[..|out|] == out;
  }

  /** An element of the walk over `out` is one of `out` or one of their
      deep dependencies. */
  lemma {:induction false} DeepOfMembers(graph: Adjacency, rank: map<string, nat>, bound: nat, out: seq<string>, x: string)
    requires Ranked(graph, rank)
    requires forall v :: v in out ==> v in rank && rank[v] < bound
    ensures x in DeepOf(graph, rank, bound, out) <==>
      exists i :: 0 <= i < |out| && (x == out[i] || x in DeepDependencies(graph, rank, out[i]))
    decreases |out|
  {
    if out != [] {
      var init := out[..|out| - 1];
      DeepOfMembers(graph, rank, bound, init, x);
      if exists i :: 0 <= i < |init| && (x == init[i] || x in DeepDependencies(graph, rank, init[i])) {
        var i :| 0 <= i < |init| && (x == init[i] || x in DeepDependencies(graph, rank, init[i]));
        assert out[i] == init[i];
      }
      if exists i :: 0 <= i < |out| && (x == out[i] || x in DeepDependencies(graph, rank, out[i])) {
        var i :| 0 <= i < |out| && (x == out[i] || x in DeepDependencies(graph, rank, out[i]));
        if i < |init| {
          assert init[i] == out[i];
        }
      }
    }
  }

  /** Everything the walk lists is reachable from `entry`. */
  lemma {:induction false} DeepSound(graph: Adjacency, rank: map<string, nat>, entry: string, x: string)
    requires Ranked(graph, rank) && entry in rank
    requires x in DeepDependencies(graph, rank, entry)
    ensures Reachable(graph, entry, x)
    decreases rank[entry]
  {
    var out := graph[entry];
    DeepOfMembers(graph, rank, rank[entry], out, x);
    var i :| 0 <= i < |out| && (x == out[i] || x in DeepDependencies(graph, rank, out[i]));
    var v := out[i];
    if x == v {
      assert IsWalk(graph, [entry, v]);
    } else {
      DeepSound(graph, rank, v, x);
      var p :| IsWalk(graph, p) && p[0] == v && p[|p| - 1] == x;
      var q := [entry] + p;
      assert q[1..] == p;
      assert IsWalk(graph, q);
    }
  }

  /** The end of every walk from `entry` is listed by the walk. */
  lemma {:induction false} DeepComplete(graph: Adjacency, rank: map<string, nat>, p: seq<string>)
    requires Ranked(graph, rank) && IsWalk(graph, p) && p[0] in rank
    ensures p[|p| - 1] in DeepDependencies(graph, rank, p[0])
    decreases |p|
  {
    var entry, v, x := p[0], p[1], p[|p| - 1];
    var out := graph[entry];
    var i :| 0 <= i < |out| && out[i] == v;
    if |p| > 2 {
      assert IsWalk(graph, p[1..]);
      DeepComplete(graph, rank, p[1..]);
    }
    DeepOfMembers(graph, rank, rank[entry], out, x);
  }

  /** When no cycle is reachable from `entry`, the walk from it lists exactly the nodes
      reachable from `entry` by one or more edges; in particular every
      direct dependency. */
  lemma DeepIsReachable(graph: Adjacency, rank: map<string, nat>, entry: string, x: string)
    requires Ranked(graph, rank) && entry in rank
    ensures x in DeepDependencies(graph, rank, entry) <==> Reachable(graph, entry, x)
    ensures x in graph[entry] ==> x in DeepDependencies(graph, rank, entry)
  {
    if x in DeepDependencies(graph, rank, entry) {
      DeepSound(graph, rank, entry, x);
    }
    if Reachable(graph, entry, x) {
      var p :| IsWalk(graph, p) && p[0] == entry && p[|p| - 1] == x;
      DeepComplete(graph, rank, p);
    }
    if x in graph[entry] {
      DeepComplete(graph, rank, [entry, x]);
    }
  }

  /** One object-file rule of the generated Makefile:
      `$(ODIR)/<stem>.o : <prerequisites>`. */
  datatype ObjectRule = ObjectRule(stem: string, prerequisites: seq<string>)

  /** The rules `generateMakefile` writes for `sources`, in order: each
      source's stem, and the source followed by its deep dependencies. */
  function ObjectRules(all: Adjacency, ghost rank: map<string, nat>, sources: seq<string>): (rules: seq<ObjectRule>)
    requires Ranked(all, rank) && forall s :: s in sources ==> s in rank
    ensures |rules| == |sources|
  {
    if sources == [] then []
    else
      var src := sources[|sources| - 1];
      ObjectRules(all, rank, sources[..|sources| - 1]) +
        [ObjectRule(Stem(src), [src] + DeepDependencies(all, rank, src))]
  }

  /** The rule of source `i` is built from source `i` alone. */
  lemma {:induction false} ObjectRuleAt(all: Adjacency, rank: map<string, nat>, sources: seq<string>, i: nat)
    requires Ranked(all, rank) && (forall s :: s in sources ==> s in rank) && i < |sources|
    ensures ObjectRules(all, rank, sources)[i] ==
      ObjectRule(Stem(sources[i]), [sources[i]] + DeepDependencies(all, rank, sources[i]))
    decreases |sources|
  {
    var init, src := sources[..|sources| - 1], sources[|sources| - 1];
    var last := ObjectRule(Stem(src), [src] + DeepDependencies(all, rank, src));
    assert ObjectRules(all, rank, sources) == ObjectRules(all, rank, init) + [last];
    if i < |init| {
      ObjectRuleAt(all, rank, init, i);
      assert sources[i] == init[i];
    }
  }

  /** The rule of source `i` is named after its stem and lists the source
      first, then exactly the nodes reachable from it. */
  lemma ObjectRulePrerequisites(all: Adjacency, rank: map<string, nat>, sources: seq<string>, i: nat)
    requires Ranked(all, rank) && (forall s :: s in sources ==> s in rank) && i < |sources|
    ensures ObjectRules(all, rank, sources)[i].stem == Stem(sources[i])
    ensures var pre := ObjectRules(all, rank, sources)[i].prerequisites;
      |pre| > 0 && pre[0] == sources[i] &&
      forall x :: x in pre[1..] <==> Reachable(all, sources[i], x)
  {
    ObjectRuleAt(all, rank, sources, i);
    var src := sources[i];
    var deep := DeepDependencies(all, rank, src);
    assert ObjectRules(all, rank, sources)[i].prerequisites[1..] == deep;
    forall x ensures x in deep <==> Reachable(all, src, x) {
      DeepIsReachable(all, rank, src, x);
    }
  }

  /** A graph with a diamond: `d.h` is reachable from `a.cpp` along two paths. */
  const Diamond: Adjacency :=
    map["a.cpp" := ["b.h", "c.h"], "b.h" := ["d.h"], "c.h" := ["d.h"], "d.h" := []]
  const DiamondRank: map<string, nat> := map["a.cpp" := 2, "b.h" := 1, "c.h" := 1, "d.h" := 0]

  /** The diamond has no cycle. */
  lemma DiamondRanked()
    ensures Ranked(Diamond, DiamondRank)
  {
    assert Diamond.Keys == DiamondRank.Keys;
  }

  /** Both sides of the diamond list the shared header once. */
  lemma DiamondSides()
    ensures Ranked(Diamond, DiamondRank)
    ensures DeepDependencies(Diamond, DiamondRank, "b.h") == ["d.h"]
    ensures DeepDependencies(Diamond, DiamondRank, "c.h") == ["d.h"]
  {
    DiamondRanked();
    assert DeepDependencies(Diamond, DiamondRank, "d.h") == [];
  }

  /** The walk keeps no visited set: the shared header is listed once per
      path that reaches it. */
  lemma DiamondListsSharedHeaderTwice()
    ensures Ranked(Diamond, DiamondRank)
    ensures DeepDependencies(Diamond, DiamondRank, "a.cpp") == ["b.h", "d.h", "c.h", "d.h"]
  {
    DiamondSides();
  }

  /** A graph whose only cycle, between two headers, cannot be reached from
      `main.cpp`: the walk from `main.cpp` ends at once, and a rank over
      `main.cpp` alone admits it. */
  const CycleAside: Adjacency := map["main.cpp" := [], "x.h" := ["y.h"], "y.h" := ["x.h"]]

  lemma CycleAsideIsAdmitted()
    ensures IsWalk(CycleAside, ["x.h", "y.h", "x.h"])
    ensures Ranked(CycleAside, map["main.cpp" := 0])
    ensures DeepDependencies(CycleAside, map["main.cpp" := 0], "main.cpp") == []
  {
  }

  /** The stem of `main.cpp` is `main`. */
  lemma MainStem()
    ensures Stem("main.cpp") == "main"
  {
    var f := "main.cpp";
    assert f[4] == '.' && f[5] != '.' && f[6] != '.' && f[7] != '.';
    forall k | 0 <= k < |f| ensures f[k] != '/' {
    }
    assert LastIndexOf(f, '/') == -1;
    assert Filename(f) == f;
    assert LastIndexOf(f, '.') == 4;
    assert f[..4] == "main";
  }
}
