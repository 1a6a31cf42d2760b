/** The earlier variant of the tool (gmake.cpp, built on boost::filesystem):
    string helpers, its include extractor, the graph builder, the header
    ordering and the lookups `generateMakefile` makes in the graph. */
module BoostGmake {
  import opened Wrappers
  import opened Strings
  import opened Paths
  import opened Graphs
  import opened Resolver
  import FsGmake

  /** The prefix `readDeps` looks for once spaces are gone. */
  const IncludeQuote: string := "#include\""

  // ---------------------------------------------------------------------
  // String helpers

  /** `rmSpaces`: copies every character but ' ' into a new string. */
  method RmSpaces(str: string) returns (r: string)
    ensures r == Without(str, ' ')
    ensures ' ' !in r
  {
    r := "";
    for i := 0 to |str|
      invariant r == Without(str[..i], ' ')
    {
      WithoutAppend(str[..i], [str[i]], ' ');
      assert str[..i + 1] == str[..i] + [str[i]];
      if str[i] != ' ' {
        r := r + [str[i]];
      }
    }
    assert str[..|str|] == str;
  }

  /** `startsWith`. */
  function StartsWith(str: string, sub: string): (r: bool)
    ensures r <==> sub <= str
  {
    if |str| < |sub| then false else str[..|sub|] == sub
  }

  /** `endsWith`. */
  function EndsWith(str: string, sub: string): (r: bool)
    ensures |str| < |sub| ==> !r
    ensures r <==> |sub| <= |str| && forall k :: 0 <= k < |sub| ==> str[|str| - |sub| + k] == sub[k]
  {
    if |str| < |sub| then false else str[|str| - |sub|..] == sub
  }

  /** The prefix and suffix tests of the two variants agree on every input. */
  lemma HelpersAgree(str: string, sub: string)
    ensures StartsWith(str, sub) == FsGmake.StartWith(str, sub)
    ensures EndsWith(str, sub) == FsGmake.EndWith(str, sub)
  {
  }

  // ---------------------------------------------------------------------
  // Include extraction

  /** One line's contribution in `readDeps`: after removing spaces, a line
      that starts with `#include"` yields what follows those 9 characters
      less its last character, whatever that character is. */
  function LineDependency(line: string): Option<string>
  {
    AfterQuote(Without(line, ' '))
  }

  /** The contribution of a line `l` that has no spaces left. When nothing
      follows `#include"`, `size() - 1` wraps around and the whole (empty)
      rest is kept. */
  function AfterQuote(l: string): Option<string>
  {
    if !StartsWith(l, IncludeQuote) then None
    else
      var pos := Find(l, IncludeQuote, 0);
      if pos < 0 then None
      else
        var dependency := l[pos + 9..];
        Some(if |dependency| == 0 then dependency else dependency[..|dependency| - 1])
  }

  /** A line yields a dependency exactly when it starts with `#include"`
      once spaces are removed; the dependency is the rest of the line less
      its last character, which need not be a quote. */
  lemma LineDependencyAfterPrefix(line: string)
    ensures var l := Without(line, ' ');
      && (LineDependency(line).Some? <==> IncludeQuote <= l)
      && (LineDependency(line).Some? ==>
            (l == IncludeQuote && LineDependency(line).value == []) ||
            l == IncludeQuote + LineDependency(line).value + [l[|l| - 1]])
  {
    AfterQuoteShape(Without(line, ' '));
  }

  /** `AfterQuote` on a space-free line: defined exactly after the prefix,
      and then the rest less its last character. */
  lemma AfterQuoteShape(l: string)
    ensures AfterQuote(l).Some? <==> IncludeQuote <= l
    ensures AfterQuote(l).Some? ==>
      (l == IncludeQuote && AfterQuote(l).value == []) ||
      l == IncludeQuote + AfterQuote(l).value + [l[|l| - 1]]
  {
    if IncludeQuote <= l {
      assert OccursAt(l, IncludeQuote, 0);
      if |l| > 9 {
        assert l == IncludeQuote + l[9..|l| - 1] + [l[|l| - 1]];
      }
    }
  }

  /** The later variant extracts `d` from any space-free line that reads
      `#include"d"` followed by anything. */
  lemma FsExtractsQuoted(l: string, d: string, rest: string)
    requires '"' !in d
    requires l == IncludeQuote + d + "\"" + rest
    ensures FsGmake.Quoted(l) == Some(d)
  {
    assert l[..8] == FsGmake.IncludeStmt;
    FirstQuoteAfterInclude(l, d, rest);
    SecondQuoteAfterTarget(l, d, rest);
    assert l[9..9 + |d|] == d;
  }

  /** The first double quote of `#include"d"...` closes `#include`. */
  lemma FirstQuoteAfterInclude(l: string, d: string, rest: string)
    requires l == IncludeQuote + d + "\"" + rest
    ensures Find(l, FsGmake.Quote, 0) == 8
  {
    assert l[8] == '"';
    forall k | 0 <= k < 8 ensures l[k] != '"' {
      assert l[k] == IncludeQuote[k];
    }
    FindChar(l, '"', 0);
  }

  /** After it, the next double quote is the one that ends `d`. */
  lemma SecondQuoteAfterTarget(l: string, d: string, rest: string)
    requires '"' !in d
    requires l == IncludeQuote + d + "\"" + rest
    ensures Find(l, FsGmake.Quote, 9) == 9 + |d|
  {
    assert l[9 + |d|] == '"';
    forall k | 9 <= k < 9 + |d| ensures l[k] != '"' {
      assert l[k] == d[k - 9];
    }
    FindChar(l, '"', 9);
  }

  /** The earlier variant keeps everything after `#include"` but the last
      character. */
  lemma AfterQuoteKeepsRest(l: string, d: string, rest: string)
    requires |rest| > 0
    requires l == IncludeQuote + d + "\"" + rest
    ensures AfterQuote(l) == Some(d + "\"" + rest[..|rest| - 1])
  {
    AfterQuoteShape(l);
    assert l[9..|l| - 1] == d + "\"" + rest[..|rest| - 1];
  }

  /** On a line that reads `#include"d"` with nothing after the closing
      quote, both variants extract `d`. */
  lemma VariantsAgreeOnPlainInclude(line: string, d: string)
    requires '"' !in d
    requires Without(line, ' ') == IncludeQuote + d + "\""
    ensures LineDependency(line) == Some(d)
    ensures FsGmake.LineDependency(line) == Some(d)
  {
    var l := Without(line, ' ');
    FsGmake.ErasedSpaces(line);
    assert l == IncludeQuote + d + "\"" + [];
    FsExtractsQuoted(l, d, []);
    AfterQuoteShape(l);
    assert l[9..|l| - 1] == d;
  }

  /** When anything follows the closing quote (a comment, a carriage
      return), the earlier variant keeps the quote and all but the last
      character after it, and so differs from the later one. */
  lemma TextAfterQuoteIsKept(line: string, d: string, rest: string)
    requires '"' !in d && |rest| > 0
    requires Without(line, ' ') == IncludeQuote + d + "\"" + rest
    ensures LineDependency(line) == Some(d + "\"" + rest[..|rest| - 1])
    ensures FsGmake.LineDependency(line) == Some(d)
  {
    FsGmake.ErasedSpaces(line);
    FsExtractsQuoted(Without(line, ' '), d, rest);
    AfterQuoteKeepsRest(Without(line, ' '), d, rest);
  }

  /** The line `#include"a.h"//x`. */
  const SampleLine: string := IncludeQuote + "a.h" + "\"" + "//x"

  /** The sample line is left as it is by space removal. */
  lemma SampleLineHasNoSpace()
    ensures Without(SampleLine, ' ') == SampleLine
  {
    assert ' ' !in IncludeQuote && ' ' !in "a.h" + "\"" + "//x";
    WithoutAbsent(SampleLine, ' ');
  }

  /** On `#include"a.h"//x` the earlier variant yields `a.h"//`, the later
      one `a.h`. */
  lemma TrailingCommentSample()
    ensures LineDependency(SampleLine) == Some("a.h\"//")
    ensures FsGmake.LineDependency(SampleLine) == Some("a.h")
  {
    SampleLineHasNoSpace();
    TextAfterQuoteIsKept(SampleLine, "a.h", "//x");
    assert "a.h" + "\"" + "//x"[..2] == "a.h\"//";
  }

  /** The body of `readDeps`'s loop for one line. */
  method ReadDepsLine(raw: string) returns (dep: Option<string>)
    ensures dep == LineDependency(raw)
  {
    var line := RmSpaces(raw);
    if StartsWith(line, IncludeQuote) {
      var dependency := line[Find(line, IncludeQuote, 0) + 9..];
      dependency := if |dependency| == 0 then dependency else dependency[..|dependency| - 1];
      dep := Some(dependency);
    } else {
      dep := None;
    }
  }

  /** `readDeps` over the lines of a file (`None`: the file cannot be
      opened). Lines are appended to `deps` in order. */
  method ReadDeps(file: Option<seq<string>>, deps: seq<string>) returns (ok: bool, result: seq<string>)
    ensures ok == file.Some?
    ensures result == if ok then deps + Extracted(LineDependency, file.value) else deps
  {
    if file.None? {
      return false, deps;
    }
    var lines := file.value;
    result := deps;
    for n := 0 to |lines|
      invariant result == deps + Extracted(LineDependency, lines[..n])
    {
      assert lines[..n + 1][..n] == lines[..n];
      var dep := ReadDepsLine(lines[n]);
      if dep.Some? {
        result := result + [dep.value];
      }
    }
    assert lines[..|lines|] == lines;
    return true, result;
  }

  // ---------------------------------------------------------------------
  // Graph construction

  /** This variant scans files whose extension is exactly `.cpp` or `.h`,
      extracts with `LineDependency`, and adds no node of its own: a file
      enters the graph only as an endpoint of an edge. */
  function BoostRules(): Rules
  {
    Rules(Scanned, LineDependency, false)
  }

  /** Whether `getDependencyGraph` scans the file at `p`. */
  predicate Scanned(p: string)
  {
    var extension := Extension(p);
    extension == ".cpp" || extension == ".h"
  }

  /** `getDependencyGraph` over the inventory `files` (the directory walk's
      result). */
  method GetDependencyGraph(files: seq<FileEntry>) returns (graph: Graph)
    ensures fresh(graph)
    ensures graph.Model() == Build(files, BoostRules())
  {
    graph := new Graph();
    for i := 0 to |files|
      invariant fresh(graph)
      invariant graph.Model() == BuildUpTo(files, BoostRules(), i)
    {
      ScanOneFile(graph, files, files[i]);
    }
  }

  /** The body of `getDependencyGraph`'s loop, for one inventory file. */
  method ScanOneFile(graph: Graph, files: seq<FileEntry>, file: FileEntry)
    modifies graph
    ensures graph.Model() == ScanFile(old(graph.Model()), files, BoostRules(), file)
  {
    var extension := Extension(file.path);
    if extension == ".cpp" || extension == ".h" {
      var ok, dependencies := ReadDeps(file.lines, []);
      if ok {
        assert dependencies == Extracted(LineDependency, file.lines.value);
        ConnectDependencies(graph, files, file.path, dependencies);
      }
    }
  }

  /** The graph of an inventory without repeated paths: a file's out-edges
      are its resolved include targets in line order when its extension is
      exactly `.cpp` or `.h` and it could be read, none otherwise; the
      nodes are exactly the files with at least one such edge and the files
      those edges reach. */
  lemma GraphShape(files: seq<FileEntry>)
    requires DistinctPaths(files)
    ensures Build(files, BoostRules()).Valid()
    ensures forall u :: u in Build(files, BoostRules()).adj ==> u in PathsOf(files)
    ensures forall i :: 0 <= i < |files| ==>
      Build(files, BoostRules()).Out(files[i].path) ==
        if (Extension(files[i].path) == ".cpp" || Extension(files[i].path) == ".h") && files[i].lines.Some?
        then Resolve(files, Extracted(LineDependency, files[i].lines.value))
        else []
    ensures forall u :: u in Build(files, BoostRules()).adj <==>
      exists i :: 0 <= i < |files| && Scanned(files[i].path) && files[i].lines.Some? &&
        var ts := Resolve(files, Extracted(LineDependency, files[i].lines.value));
        ts != [] && (u == files[i].path || u in ts)
  {
    BuildOut(files, BoostRules());
    BuildNodes(files, BoostRules());
  }

  /** A project made of one `main.cpp` with the given lines. */
  function LoneMain(lines: seq<string>): seq<FileEntry>
  {
    [FileEntry("main.cpp", Some(lines))]
  }

  /** A line without `#` yields no dependency. */
  lemma NoHashNoDependency(line: string)
    requires '#' !in line
    ensures LineDependency(line) == None
  {
    assert IncludeQuote[0] == '#';
    assert '#' !in Without(line, ' ');
  }

  /** In this version a file that neither includes nor is included gets no
      node: in a project made of a `main.cpp` without any `#`, the entry
      lookup finds nothing and the source goes on to dereference the null
      pointer. */
  lemma LoneMainHasNoNode(lines: seq<string>)
    requires forall k :: 0 <= k < |lines| ==> '#' !in lines[k]
    ensures Build(LoneMain(lines), BoostRules()).nodes == []
    ensures FirstWithFilename(Build(LoneMain(lines), BoostRules()).nodes, "main.cpp") == -1
  {
    var deps := Extracted(LineDependency, lines);
    if deps != [] {
      var y := deps[0];
      CollectMembers(LineDependency, lines, y);
      var k :| 0 <= k < |lines| && LineDependency(lines[k]) == Some(y);
      NoHashNoDependency(lines[k]);
    }
    var inv, rules := LoneMain(lines), BoostRules();
    var g0 := BuildUpTo(inv, rules, 0);
    assert Resolve(inv, Extracted(rules.extract, lines)) == [];
    assert ConnectAll(g0, "main.cpp", []) == g0;
    assert ScanFile(g0, inv, rules, inv[0]) == g0;
    assert Build(inv, rules) == BuildUpTo(inv, rules, 1) == g0;
  }

  /** The later version gives every scanned file a node, so the same
      project's `main.cpp` is found. */
  lemma LoneMainHasNodeLater(lines: seq<string>, extsHdr: seq<string>)
    ensures "main.cpp" in Build(LoneMain(lines), FsGmake.FsRules(extsHdr)).adj
  {
    var f := "main.cpp";
    FsGmake.MainStem();
    assert Filename(f) == f;
    assert Extension(f) == ".cpp";
    assert FsGmake.Contains(FsGmake.ExtsSrc, ".cpp");
    ScannedHasNode(LoneMain(lines), FsGmake.FsRules(extsHdr), 0);
  }

  // ---------------------------------------------------------------------
  // Header ordering

  /** A node name that ends with `.h` is a header. */
  function HeaderOf(name: string): Option<string>
  {
    if EndsWith(name, ".h") then Some(name) else None
  }

  /** The headers among `nodes`, in order. */
  function Headers(nodes: seq<string>): seq<string>
  {
    Collect(HeaderOf, nodes)
  }

  /** A name is listed by `Headers` exactly when it is one of `nodes` and
      ends with `.h`. */
  lemma HeadersMembers(nodes: seq<string>, x: string)
    ensures x in Headers(nodes) <==> x in nodes && EndsWith(x, ".h")
  {
    CollectMembers(HeaderOf, nodes, x);
    if x in nodes && EndsWith(x, ".h") {
      var i :| 0 <= i < |nodes| && nodes[i] == x;
      assert HeaderOf(nodes[i]) == Some(x);
    }
  }

  /** `getOutConnections()` of a node: how many edges leave it. */
  function OutDegree(g: Digraph, u: string): nat
  {
    |g.Out(u)|
  }

  /** `names` is in non-decreasing order of out-degree. */
  ghost predicate ByOutDegree(g: Digraph, names: seq<string>)
  {
    forall p, q :: 0 <= p < q < |names| ==> OutDegree(g, names[p]) <= OutDegree(g, names[q])
  }

  /** `getOrderedDependencies`: the header nodes, in non-decreasing order of
      out-degree. */
  method GetOrderedDependencies(graph: Graph) returns (ordered: seq<string>)
    ensures multiset(ordered) == multiset(Headers(graph.nodes))
    ensures ByOutDegree(graph.Model(), ordered)
  {
    var nodes := graph.nodes;
    var headers: seq<string> := [];
    for i := 0 to |nodes|
      invariant headers == Headers(nodes[..i])
    {
      CollectAppend(HeaderOf, nodes[..i], [nodes[i]]);
      assert nodes[..i + 1] == nodes[..i] + [nodes[i]];
      if EndsWith(nodes[i], ".h") {
        headers := headers + [nodes[i]];
      }
    }
    assert nodes[..|nodes|] == nodes;
    var a := new string[|headers|](k requires 0 <= k < |headers| => headers[k]);
    assert a[..] == headers;
    ExchangeSort(a, graph.Model());
    ordered := a[..];
  }

  /** Positions before `i` hold, in order, elements of out-degree no larger
      than any element after them. */
  ghost predicate SortedBefore(g: Digraph, s: seq<string>, i: int)
  {
    forall p, q :: 0 <= p < i && p < q < |s| ==> OutDegree(g, s[p]) <= OutDegree(g, s[q])
  }

  /** The nested exchange loops of `getOrderedDependencies`. */
  method ExchangeSort(a: array<string>, g: Digraph)
    modifies a
    ensures multiset(a[..]) == multiset(old(a[..]))
    ensures ByOutDegree(g, a[..])
  {
    for i := 0 to a.Length
      invariant multiset(a[..]) == multiset(old(a[..]))
      invariant SortedBefore(g, a[..], i)
    {
      ExchangeRound(a, g, i);
    }
  }

  /** One pass of the inner loop: position `i` takes, by swaps, an element
      of least out-degree among positions `i` and after. */
  method ExchangeRound(a: array<string>, g: Digraph, i: int)
    requires 0 <= i < a.Length
    requires SortedBefore(g, a[..], i)
    modifies a
    ensures multiset(a[..]) == multiset(old(a[..]))
    ensures SortedBefore(g, a[..], i + 1)
    ensures a[..i] == old(a[..i])
  {
    for j := i to a.Length
      invariant multiset(a[..]) == multiset(old(a[..]))
      invariant a[..i] == old(a[..i])
      invariant SortedBefore(g, a[..], i)
      invariant forall q :: i <= q < j ==> OutDegree(g, a[i]) <= OutDegree(g, a[q])
    {
      ExchangeStep(a, g, i, j);
    }
  }

  /** One comparison of the inner loop: `a[i]` and `a[j]` are exchanged
      when `a[j]` has fewer out-edges, so `a[i]` stays least among
      positions `i` to `j`. */
  method ExchangeStep(a: array<string>, g: Digraph, i: int, j: int)
    requires 0 <= i <= j < a.Length
    requires SortedBefore(g, a[..], i)
    requires forall q :: i <= q < j ==> OutDegree(g, a[i]) <= OutDegree(g, a[q])
    modifies a
    ensures a[..] == if OutDegree(g, old(a[i])) > OutDegree(g, old(a[j]))
      then old(a[..])[i := old(a[j])][j := old(a[i])]
      else old(a[..])
    ensures multiset(a[..]) == multiset(old(a[..]))
    ensures SortedBefore(g, a[..], i)
    ensures forall q :: i <= q <= j ==> OutDegree(g, a[i]) <= OutDegree(g, a[q])
    ensures a[..i] == old(a[..i])
  {
    if OutDegree(g, a[i]) > OutDegree(g, a[j]) {
      SwapKeepsSortedBefore(g, a[..], i, j);
      Swap(a, i, j);
    }
  }

  /** Exchanges `a[i]` and `a[j]`. */
  method Swap(a: array<string>, i: int, j: int)
    requires 0 <= i <= j < a.Length
    modifies a
    ensures a[..] == old(a[..])[i := old(a[j])][j := old(a[i])]
    ensures multiset(a[..]) == multiset(old(a[..]))
  {
    a[i], a[j] := a[j], a[i];
  }

  /** Exchanging two elements at or after `i` keeps the part before `i`
      sorted below the rest. */
  lemma SwapKeepsSortedBefore(g: Digraph, s: seq<string>, i: int, j: int)
    requires 0 <= i <= j < |s| && SortedBefore(g, s, i)
    ensures SortedBefore(g, s[i := s[j]][j := s[i]], i)
  {
    var t := s[i := s[j]][j := s[i]];
    forall p, q | 0 <= p < i && p < q < |t| ensures OutDegree(g, t[p]) <= OutDegree(g, t[q]) {
      assert t[p] == s[p];
      assert t[q] == s[q] || t[q] == s[i] || t[q] == s[j];
    }
  }

  // ---------------------------------------------------------------------
  // Lookups in generateMakefile

  /** The entry-node lookup of `generateMakefile`: the first node whose file
      name is the entry point's. `None` is the null pointer the source goes
      on to dereference. */
  method FindEntryNode(graph: Graph, entryPoint: string) returns (entry: Option<string>)
    ensures entry.None? <==> forall k :: 0 <= k < |graph.nodes| ==> Filename(graph.nodes[k]) != Filename(entryPoint)
    ensures entry.Some? ==>
      var k := FirstWithFilename(graph.nodes, Filename(entryPoint));
      0 <= k && entry.value == graph.nodes[k]
  {
    var entryFilename := Filename(entryPoint);
    entry := None;
    var allNodes := graph.nodes;
    for i := 0 to |allNodes|
      invariant entry.None?
      invariant forall k :: 0 <= k < i ==> Filename(allNodes[k]) != entryFilename
    {
      if Filename(allNodes[i]) == entryFilename {
        entry := Some(allNodes[i]);
        assert FirstWithFilename(allNodes, entryFilename) == i;
        break;
      }
    }
  }

  /** The rule `generateMakefile` writes for a header that has a
      compilation unit: `$(ODIR)/<stem>.o : <source> <header> <deps>`,
      with `deps` the header's out-connections. */
  datatype HeaderRule = HeaderRule(stem: string, source: string, header: string, deps: seq<string>)

  /** The rule for `header`, when some node's file name is the header's
      stem followed by `.cpp`; the first such node is its source. */
  function Paired(g: Digraph, header: string): Option<HeaderRule>
  {
    var k := FirstWithFilename(g.nodes, Stem(header) + ".cpp");
    if k < 0 then None else Some(HeaderRule(Stem(header), g.nodes[k], header, g.Out(header)))
  }

  /** A header gets a rule exactly when a node is named like its
      compilation unit; the rule's source is the first such node and its
      prerequisites are the header's own out-connections. */
  lemma PairedSpec(g: Digraph, header: string)
    ensures var cpp := Stem(header) + ".cpp";
      Paired(g, header).None? <==> forall k :: 0 <= k < |g.nodes| ==> Filename(g.nodes[k]) != cpp
    ensures var cpp := Stem(header) + ".cpp";
      Paired(g, header).Some? ==>
        var r := Paired(g, header).value;
        && r.stem == Stem(header) && r.header == header && r.deps == g.Out(header)
        && exists k :: 0 <= k < |g.nodes| && r.source == g.nodes[k] && Filename(r.source) == cpp &&
             forall j :: 0 <= j < k ==> Filename(g.nodes[j]) != cpp
  {
    var k := FirstWithFilename(g.nodes, Stem(header) + ".cpp");
    if k >= 0 {
      assert Paired(g, header).value.source == g.nodes[k];
    }
  }

  /** The rules for `headers`, in order. */
  function PairedAll(g: Digraph, headers: seq<string>): seq<HeaderRule>
  {
    Collect(h => Paired(g, h), headers)
  }

  /** Extending the headers by one adds that header's rule, if any. */
  lemma PairedAllAppend(g: Digraph, headers: seq<string>, header: string)
    ensures PairedAll(g, headers + [header]) ==
      PairedAll(g, headers) + (if Paired(g, header).Some? then [Paired(g, header).value] else [])
  {
    CollectAppend(h => Paired(g, h), headers, [header]);
  }

  /** The loop over the ordered headers in `generateMakefile`: one rule per
      header that has a compilation unit, in header order. */
  method PairHeaders(graph: Graph, headers: seq<string>) returns (rules: seq<HeaderRule>)
    ensures rules == PairedAll(graph.Model(), headers)
  {
    rules := [];
    for i := 0 to |headers|
      invariant rules == PairedAll(graph.Model(), headers[..i])
    {
      var header := headers[i];
      var file := Stem(header);
      var cppName := file + ".cpp";
      var all := graph.nodes;
      var j := FindPath(all, cppName);
      PairedAllAppend(graph.Model(), headers[..i], header);
      assert headers[..i + 1] == headers[..i] + [header];
      if j != -1 {
        rules := rules + [HeaderRule(file, all[j], header, graph.Model().Out(header))];
      }
    }
    assert headers[..|headers|] == headers;
  }
}
