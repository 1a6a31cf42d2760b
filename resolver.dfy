/** The graph-building engine both variants of the tool share: the file
    inventory, the filename lookup (`findPath`) and the scan that turns each
    file's include lines into `connect` calls. The two variants differ only
    in the `Rules` they pass in. */
module Resolver {
  import opened Wrappers
  import opened Paths
  import opened Graphs

  /** One file of the inventory: its path and its text lines, or `None`
      when the file cannot be opened. */
  datatype FileEntry = FileEntry(path: string, lines: Option<seq<string>>)

  /** What a variant decides: which files are scanned (by their extension),
      which include target (if any) a line yields, and whether a scanned
      file gets a node even when it has no resolved include. */
  datatype Rules = Rules(scan: string -> bool, extract: string -> Option<string>, addNode: bool)

  /** The paths of the inventory, in inventory order. */
  function PathsOf(inv: seq<FileEntry>): (ps: seq<string>)
    ensures |ps| == |inv| && forall i :: 0 <= i < |inv| ==> ps[i] == inv[i].path
  {
    seq(|inv|, i requires 0 <= i < |inv| => inv[i].path)
  }

  /** No path is listed twice (the directory walk lists each file once). */
  ghost predicate DistinctPaths(inv: seq<FileEntry>)
  {
    forall i, j :: 0 <= i < j < |inv| ==> inv[i].path != inv[j].path
  }

  /** The first index whose file name is `name`, or -1 when there is none. */
  function FirstWithFilename(paths: seq<string>, name: string): (r: int)
    ensures -1 <= r < |paths|
    ensures r >= 0 ==> Filename(paths[r]) == name
    ensures forall j :: 0 <= j < |paths| && (r == -1 || j < r) ==> Filename(paths[j]) != name
  {
    if paths == [] then -1
    else if Filename(paths[0]) == name then 0
    else
      var r := FirstWithFilename(paths[1..], name);
      if r < 0 then -1 else r + 1
  }

  /** `findPath`: the index of the first path whose file name is `dep`, or
      -1 when no path has that file name. */
  method FindPath(paths: seq<string>, dep: string) returns (index: int)
    ensures index == FirstWithFilename(paths, dep)
  {
    for i := 0 to |paths|
      invariant forall j :: 0 <= j < i ==> Filename(paths[j]) != dep
    {
      if Filename(paths[i]) == dep {
        return i;
      }
    }
    return -1;
  }

  /** The values `f` yields on the elements of `xs`, in order; an element
      on which `f` yields nothing contributes nothing. */
  function Collect<T, U>(f: T -> Option<U>, xs: seq<T>): (ys: seq<U>)
    ensures |ys| <= |xs|
  {
    if xs == [] then []
    else
      Collect(f, xs[..|xs| - 1]) +
      match f(xs[|xs| - 1])
      case Some(y) => [y]
      case None => []
  }

  /** Collecting works element by element: the values of two blocks are
      those of the first followed by those of the second. */
  lemma {:induction false} CollectAppend<T, U>(f: T -> Option<U>, a: seq<T>, b: seq<T>)
    ensures Collect(f, a + b) == Collect(f, a) + Collect(f, b)
    decreases |b|
  {
    if b == [] {
      assert a + b == a;
    } else {
      assert (a + b)[..|a + b| - 1] == a + b[..|b| - 1];
      CollectAppend(f, a, b[..|b| - 1]);
    }
  }

  /** Every collected value is yielded by some element. */
  lemma {:induction false} CollectedFrom<T, U>(f: T -> Option<U>, xs: seq<T>, y: U)
    requires y in Collect(f, xs)
    ensures exists i :: 0 <= i < |xs| && f(xs[i]) == Some(y)
    decreases |xs|
  {
    var init := xs[..|xs| - 1];
    if y in Collect(f, init) {
      CollectedFrom(f, init, y);
      var i :| 0 <= i < |init| && f(init[i]) == Some(y);
      assert xs[i] == init[i];
    } else {
      assert f(xs[|xs| - 1]) == Some(y);
    }
  }

  /** Every value an element yields is collected. */
  lemma {:induction false} CollectedAt<T, U>(f: T -> Option<U>, xs: seq<T>, i: nat)
    requires i < |xs| && f(xs[i]).Some?
    ensures f(xs[i]).value in Collect(f, xs)
    decreases |xs|
  {
    var init := xs[..|xs| - 1];
    if i < |init| {
      CollectedAt(f, init, i);
      assert init[i] == xs[i];
    }
  }

  /** A value is collected exactly when some element yields it. */
  lemma CollectMembers<T, U>(f: T -> Option<U>, xs: seq<T>, y: U)
    ensures y in Collect(f, xs) <==> exists i :: 0 <= i < |xs| && f(xs[i]) == Some(y)
  {
    if y in Collect(f, xs) {
      CollectedFrom(f, xs, y);
    }
    if exists i :: 0 <= i < |xs| && f(xs[i]) == Some(y) {
      var i :| 0 <= i < |xs| && f(xs[i]) == Some(y);
      CollectedAt(f, xs, i);
    }
  }

  /** The include targets of a file's lines: one per line the extractor
      accepts, in line order. */
  function Extracted(extract: string -> Option<string>, lines: seq<string>): seq<string>
  {
    Collect(extract, lines)
  }

  /** The node an include target resolves to: the first inventory file
      whose file name equals the target's file name, if any. */
  function Target(inv: seq<FileEntry>, dep: string): Option<string>
  {
    var k := FirstWithFilename(PathsOf(inv), Filename(dep));
    if k < 0 then None else Some(inv[k].path)
  }

  /** An include target resolves to nothing exactly when no inventory file
      has its file name, and otherwise to the first one that has. */
  lemma TargetIsFirstMatch(inv: seq<FileEntry>, dep: string)
    ensures Target(inv, dep).None? <==> forall j :: 0 <= j < |inv| ==> Filename(inv[j].path) != Filename(dep)
    ensures Target(inv, dep).Some? ==>
      exists k :: FirstFileNamed(inv, Filename(dep), k) && Target(inv, dep).value == inv[k].path
  {
    var k := FirstWithFilename(PathsOf(inv), Filename(dep));
    if k >= 0 {
      assert FirstFileNamed(inv, Filename(dep), k);
    }
  }

  /** Entry `k` is the first inventory file whose file name is `name`. */
  ghost predicate FirstFileNamed(inv: seq<FileEntry>, name: string, k: int)
  {
    0 <= k < |inv| && Filename(inv[k].path) == name
    && forall j :: 0 <= j < k ==> Filename(inv[j].path) != name
  }

  /** The edge targets of a list of include targets: one per target that
      resolves, in order; an unresolved target contributes nothing. */
  function Resolve(inv: seq<FileEntry>, deps: seq<string>): seq<string>
  {
    Collect(d => Target(inv, d), deps)
  }

  /** Every edge target is an inventory file. */
  lemma ResolvedAreInventory(inv: seq<FileEntry>, deps: seq<string>)
    ensures forall t :: t in Resolve(inv, deps) ==> t in PathsOf(inv)
  {
    forall t | t in Resolve(inv, deps) ensures t in PathsOf(inv) {
      CollectedFrom(d => Target(inv, d), deps, t);
    }
  }

  /** `connect(from, t)` for each `t` of `targets` in turn. */
  function ConnectAll(g: Digraph, from: string, targets: seq<string>): Digraph
  {
    if targets == [] then g
    else ConnectAll(g, from, targets[..|targets| - 1]).WithEdge(from, targets[|targets| - 1])
  }

  /** Connecting appends the targets, in order, to the out-edges of `from`
      and leaves every other node's out-edges alone. */
  lemma ConnectAllOut(g: Digraph, from: string, targets: seq<string>)
    ensures ConnectAll(g, from, targets).Out(from) == g.Out(from) + targets
    ensures forall u :: u != from ==> ConnectAll(g, from, targets).Out(u) == g.Out(u)
  {
    ConnectAllOutFrom(g, from, targets);
    forall u | u != from ensures ConnectAll(g, from, targets).Out(u) == g.Out(u) {
      ConnectAllOutOther(g, from, targets, u);
    }
  }

  lemma {:induction false} ConnectAllOutFrom(g: Digraph, from: string, targets: seq<string>)
    ensures ConnectAll(g, from, targets).Out(from) == g.Out(from) + targets
    decreases |targets|
  {
    if targets != [] {
      var init, t := targets[..|targets| - 1], targets[|targets| - 1];
      ConnectAllOutFrom(g, from, init);
      var h := ConnectAll(g, from, init);
      assert ConnectAll(g, from, targets) == h.WithEdge(from, t);
      assert h.WithEdge(from, t).Out(from) == h.Out(from) + [t];
      assert targets == init + [t];
      assert (g.Out(from) + init) + [t] == g.Out(from) + (init + [t]);
    }
  }

  lemma {:induction false} ConnectAllOutOther(g: Digraph, from: string, targets: seq<string>, u: string)
    requires u != from
    ensures ConnectAll(g, from, targets).Out(u) == g.Out(u)
    decreases |targets|
  {
    if targets != [] {
      ConnectAllOutOther(g, from, targets[..|targets| - 1], u);
    }
  }

  /** Connecting creates `from` and the targets as nodes, no other, and
      keeps the graph well formed. */
  lemma {:induction false} ConnectAllKeys(g: Digraph, from: string, targets: seq<string>)
    ensures forall u :: u in ConnectAll(g, from, targets).adj <==>
      u in g.adj || (targets != [] && (u == from || u in targets))
    ensures g.Valid() ==> ConnectAll(g, from, targets).Valid()
    decreases |targets|
  {
    if targets != [] {
      var init := targets[..|targets| - 1];
      ConnectAllKeys(g, from, init);
      assert targets == init + [targets[|targets| - 1]];
      if g.Valid() {
        WithEdgeValid(ConnectAll(g, from, init), from, targets[|targets| - 1]);
      }
    }
  }

  /** The inner loop of `getDependencyGraph`: for each include target of
      the file `from`, look its file name up in the inventory and connect
      `from` to the match, if there is one. */
  method ConnectDependencies(graph: Graph, paths: seq<FileEntry>, from: string, dependencies: seq<string>)
    modifies graph
    ensures graph.Model() == ConnectAll(old(graph.Model()), from, Resolve(paths, dependencies))
  {
    var names := PathsOf(paths);
    ghost var g0 := graph.Model();
    for j := 0 to |dependencies|
      invariant graph.Model() == ConnectAll(g0, from, Resolve(paths, dependencies[..j]))
    {
      var index := FindPath(names, Filename(dependencies[j]));
      ResolveStep(paths, dependencies, j, g0, from);
      if index != -1 {
        graph.Connect(from, paths[index].path);
      }
    }
    assert dependencies[..|dependencies|] == dependencies;
  }

  /** One more include target: resolve it and connect to the match. */
  lemma ResolveStep(inv: seq<FileEntry>, deps: seq<string>, j: nat, g: Digraph, from: string)
    requires j < |deps|
    ensures var k := FirstWithFilename(PathsOf(inv), Filename(deps[j]));
      ConnectAll(g, from, Resolve(inv, deps[..j + 1])) ==
        if k == -1 then ConnectAll(g, from, Resolve(inv, deps[..j]))
        else ConnectAll(g, from, Resolve(inv, deps[..j])).WithEdge(from, inv[k].path)
  {
    assert deps[..j + 1][..j] == deps[..j];
    var ts := Resolve(inv, deps[..j]);
    var k := FirstWithFilename(PathsOf(inv), Filename(deps[j]));
    if k != -1 {
      var t := inv[k].path;
      assert Resolve(inv, deps[..j + 1]) == ts + [t];
      assert (ts + [t])[..|ts|] == ts;
    } else {
      assert Resolve(inv, deps[..j + 1]) == ts;
    }
  }

  /** What scanning one inventory file does to the graph. */
  function ScanFile(g: Digraph, inv: seq<FileEntry>, rules: Rules, f: FileEntry): Digraph
  {
    if !rules.scan(f.path) then g
    else
      var g1 := if rules.addNode then g.WithNode(f.path) else g;
      match f.lines
      case None => g1
      case Some(lines) => ConnectAll(g1, f.path, Resolve(inv, Extracted(rules.extract, lines)))
  }

  /** The graph after scanning the first `k` inventory files. */
  function BuildUpTo(inv: seq<FileEntry>, rules: Rules, k: nat): Digraph
    requires k <= |inv|
  {
    if k == 0 then Digraph([], map[])
    else ScanFile(BuildUpTo(inv, rules, k - 1), inv, rules, inv[k - 1])
  }

  /** `getDependencyGraph`: the graph after scanning the whole inventory. */
  function Build(inv: seq<FileEntry>, rules: Rules): Digraph
  {
    BuildUpTo(inv, rules, |inv|)
  }

  /** The index of the first inventory entry with path `u`, or -1. */
  function IndexOfPath(inv: seq<FileEntry>, u: string): (r: int)
    ensures -1 <= r < |inv|
    ensures r >= 0 ==> inv[r].path == u
    ensures forall j :: 0 <= j < |inv| && (r == -1 || j < r) ==> inv[j].path != u
  {
    if inv == [] then -1
    else if inv[0].path == u then 0
    else
      var r := IndexOfPath(inv[1..], u);
      if r < 0 then -1 else r + 1
  }

  /** The out-edges file `u` gets from the first `k` scans: the resolved
      include targets of `u` when `u` is among them, has a scanned extension
      and could be read; nothing otherwise. */
  function OutAfter(inv: seq<FileEntry>, rules: Rules, k: nat, u: string): seq<string>
  {
    var i := IndexOfPath(inv, u);
    if 0 <= i < k && rules.scan(u) && inv[i].lines.Some?
    then Resolve(inv, Extracted(rules.extract, inv[i].lines.value))
    else []
  }

  /** Scanning a file only appends to that file's out-edges: its resolved
      include targets when its extension is scanned and it could be read. */
  lemma ScanFileOut(g: Digraph, inv: seq<FileEntry>, rules: Rules, f: FileEntry)
    ensures forall u :: u != f.path ==> ScanFile(g, inv, rules, f).Out(u) == g.Out(u)
    ensures ScanFile(g, inv, rules, f).Out(f.path) == g.Out(f.path) +
      if rules.scan(f.path) && f.lines.Some?
      then Resolve(inv, Extracted(rules.extract, f.lines.value))
      else []
  {
    if rules.scan(f.path) {
      var g1 := if rules.addNode then g.WithNode(f.path) else g;
      assert forall u :: g1.Out(u) == g.Out(u);
      if f.lines.Some? {
        ConnectAllOut(g1, f.path, Resolve(inv, Extracted(rules.extract, f.lines.value)));
      }
    }
  }

  /** Scanning a file keeps the graph well formed and creates no node but
      the file and inventory files. */
  lemma ScanFileValid(g: Digraph, inv: seq<FileEntry>, rules: Rules, f: FileEntry)
    ensures g.Valid() ==> ScanFile(g, inv, rules, f).Valid()
    ensures forall u :: u in ScanFile(g, inv, rules, f).adj ==> u in g.adj || u == f.path || u in PathsOf(inv)
  {
    if rules.scan(f.path) {
      var g1 := if rules.addNode then g.WithNode(f.path) else g;
      if g.Valid() && rules.addNode {
        WithNodeValid(g, f.path);
      }
      if f.lines.Some? {
        var ts := Resolve(inv, Extracted(rules.extract, f.lines.value));
        ResolvedAreInventory(inv, Extracted(rules.extract, f.lines.value));
        ConnectAllKeys(g1, f.path, ts);
      }
    }
  }

  /** Scanning a file keeps every node. */
  lemma ScanFileKeeps(g: Digraph, inv: seq<FileEntry>, rules: Rules, f: FileEntry, u: string)
    requires u in g.adj
    ensures u in ScanFile(g, inv, rules, f).adj
  {
    if rules.scan(f.path) && f.lines.Some? {
      var g1 := if rules.addNode then g.WithNode(f.path) else g;
      ConnectAllKeys(g1, f.path, Resolve(inv, Extracted(rules.extract, f.lines.value)));
    }
  }

  /** A variant that adds a node per scanned file gives the file one. */
  lemma ScanFileAdds(g: Digraph, inv: seq<FileEntry>, rules: Rules, f: FileEntry)
    requires rules.addNode && rules.scan(f.path)
    ensures f.path in ScanFile(g, inv, rules, f).adj
  {
    if f.lines.Some? {
      ConnectAllKeys(g.WithNode(f.path), f.path, Resolve(inv, Extracted(rules.extract, f.lines.value)));
    }
  }

  lemma {:induction false} BuildUpToValid(inv: seq<FileEntry>, rules: Rules, k: nat)
    requires k <= |inv|
    ensures BuildUpTo(inv, rules, k).Valid()
    ensures forall u :: u in BuildUpTo(inv, rules, k).adj ==> u in PathsOf(inv)
    decreases k
  {
    if k > 0 {
      BuildUpToValid(inv, rules, k - 1);
      ScanFileValid(BuildUpTo(inv, rules, k - 1), inv, rules, inv[k - 1]);
    }
  }

  lemma {:induction false} BuildUpToOut(inv: seq<FileEntry>, rules: Rules, k: nat)
    requires DistinctPaths(inv) && k <= |inv|
    ensures forall u :: BuildUpTo(inv, rules, k).Out(u) == OutAfter(inv, rules, k, u)
    decreases k
  {
    if k > 0 {
      BuildUpToOut(inv, rules, k - 1);
      var f := inv[k - 1];
      assert IndexOfPath(inv, f.path) == k - 1;
      ScanFileOut(BuildUpTo(inv, rules, k - 1), inv, rules, f);
      forall u | u != f.path
        ensures OutAfter(inv, rules, k, u) == OutAfter(inv, rules, k - 1, u)
      {
      }
    }
  }

  /** The graph `getDependencyGraph` builds from an inventory without
      repeated paths: a valid graph whose nodes are inventory files, where
      each node's out-edges are exactly the resolved include targets of that
      file, in line order, when the file has a scanned extension and could
      be read, and no out-edges otherwise. */
  lemma BuildOut(inv: seq<FileEntry>, rules: Rules)
    requires DistinctPaths(inv)
    ensures Build(inv, rules).Valid()
    ensures forall u :: u in Build(inv, rules).adj ==> u in PathsOf(inv)
    ensures forall i :: 0 <= i < |inv| ==>
      Build(inv, rules).Out(inv[i].path) ==
        if rules.scan(inv[i].path) && inv[i].lines.Some?
        then Resolve(inv, Extracted(rules.extract, inv[i].lines.value))
        else []
  {
    BuildUpToValid(inv, rules, |inv|);
    BuildUpToOut(inv, rules, |inv|);
    forall i | 0 <= i < |inv| ensures IndexOfPath(inv, inv[i].path) == i { }
  }

  lemma {:induction false} BuildUpToHasScanned(inv: seq<FileEntry>, rules: Rules, k: nat, i: nat)
    requires rules.addNode && i < k <= |inv| && rules.scan(inv[i].path)
    ensures inv[i].path in BuildUpTo(inv, rules, k).adj
    decreases k
  {
    if i < k - 1 {
      BuildUpToHasScanned(inv, rules, k - 1, i);
      BuildUpToKeeps(inv, rules, k, inv[i].path);
    } else {
      BuildUpToAdds(inv, rules, k);
    }
  }

  /** A scan keeps the nodes of the scans before it. */
  lemma BuildUpToKeeps(inv: seq<FileEntry>, rules: Rules, k: nat, u: string)
    requires 0 < k <= |inv| && u in BuildUpTo(inv, rules, k - 1).adj
    ensures u in BuildUpTo(inv, rules, k).adj
  {
    ScanFileKeeps(BuildUpTo(inv, rules, k - 1), inv, rules, inv[k - 1], u);
  }

  /** With `addNode`, the `k`-th scan of a scanned extension adds its file. */
  lemma BuildUpToAdds(inv: seq<FileEntry>, rules: Rules, k: nat)
    requires rules.addNode && 0 < k <= |inv| && rules.scan(inv[k - 1].path)
    ensures inv[k - 1].path in BuildUpTo(inv, rules, k).adj
  {
    ScanFileAdds(BuildUpTo(inv, rules, k - 1), inv, rules, inv[k - 1]);
  }

  /** With `addNode`, every inventory file whose extension is scanned is a
      node, whether or not it could be read or includes anything. */
  lemma ScannedHasNode(inv: seq<FileEntry>, rules: Rules, i: nat)
    requires rules.addNode && i < |inv| && rules.scan(inv[i].path)
    ensures inv[i].path in Build(inv, rules).adj
  {
    BuildUpToHasScanned(inv, rules, |inv|, i);
  }

  /** `u` is an end of an edge that scanning `f` creates: `f` is scanned
      and readable, at least one of its include targets resolves, and `u`
      is `f` or one of the resolved targets. */
  ghost predicate EdgeEnd(inv: seq<FileEntry>, rules: Rules, f: FileEntry, u: string)
  {
    && rules.scan(f.path) && f.lines.Some?
    && var ts := Resolve(inv, Extracted(rules.extract, f.lines.value));
       ts != [] && (u == f.path || u in ts)
  }

  /** `u` is an end of an edge created by one of the first `k` scans. */
  ghost predicate EdgeEndBefore(inv: seq<FileEntry>, rules: Rules, k: nat, u: string)
    requires k <= |inv|
  {
    exists i :: 0 <= i < k && EdgeEnd(inv, rules, inv[i], u)
  }

  /** Without `addNode`, a scan adds exactly the ends of the edges it
      creates. */
  lemma ScanFileNodes(g: Digraph, inv: seq<FileEntry>, rules: Rules, f: FileEntry)
    requires !rules.addNode
    ensures forall u :: u in ScanFile(g, inv, rules, f).adj <==> u in g.adj || EdgeEnd(inv, rules, f, u)
  {
    if rules.scan(f.path) && f.lines.Some? {
      ConnectAllKeys(g, f.path, Resolve(inv, Extracted(rules.extract, f.lines.value)));
    }
  }

  /** An edge end of the first `k` scans comes from the first `k - 1` or
      from the `k`-th. */
  lemma EdgeEndBeforeSplit(inv: seq<FileEntry>, rules: Rules, k: nat, u: string)
    requires 0 < k <= |inv| && EdgeEndBefore(inv, rules, k, u)
    ensures EdgeEndBefore(inv, rules, k - 1, u) || EdgeEnd(inv, rules, inv[k - 1], u)
  {
    var i :| 0 <= i < k && EdgeEnd(inv, rules, inv[i], u);
    if i < k - 1 {
      assert EdgeEndBefore(inv, rules, k - 1, u);
    }
  }

  /** The edge ends of the first `k - 1` scans are among those of the
      first `k`. */
  lemma EdgeEndBeforeGrows(inv: seq<FileEntry>, rules: Rules, k: nat, u: string)
    requires 0 < k <= |inv| && EdgeEndBefore(inv, rules, k - 1, u)
    ensures EdgeEndBefore(inv, rules, k, u)
  {
    var i :| 0 <= i < k - 1 && EdgeEnd(inv, rules, inv[i], u);
    assert 0 <= i < k && EdgeEnd(inv, rules, inv[i], u);
  }

  lemma {:induction false} BuildUpToNodes(inv: seq<FileEntry>, rules: Rules, k: nat)
    requires !rules.addNode && k <= |inv|
    ensures forall u :: u in BuildUpTo(inv, rules, k).adj <==> EdgeEndBefore(inv, rules, k, u)
    decreases k
  {
    if k > 0 {
      BuildUpToNodes(inv, rules, k - 1);
      ScanFileNodes(BuildUpTo(inv, rules, k - 1), inv, rules, inv[k - 1]);
      forall u ensures u in BuildUpTo(inv, rules, k).adj <==> EdgeEndBefore(inv, rules, k, u) {
        if EdgeEndBefore(inv, rules, k, u) {
          EdgeEndBeforeSplit(inv, rules, k, u);
        }
        if EdgeEndBefore(inv, rules, k - 1, u) {
          EdgeEndBeforeGrows(inv, rules, k, u);
        }
        if EdgeEnd(inv, rules, inv[k - 1], u) {
          assert EdgeEndBefore(inv, rules, k, u);
        }
      }
    }
  }

  /** Without `addNode`, the nodes are exactly the files that got an edge
      and the files their edges reach: a scanned file none of whose include
      targets resolves, and that no other file includes, is no node. */
  lemma BuildNodes(inv: seq<FileEntry>, rules: Rules)
    requires !rules.addNode
    ensures forall u :: u in Build(inv, rules).adj <==>
      exists i :: 0 <= i < |inv| && EdgeEnd(inv, rules, inv[i], u)
  {
    BuildUpToNodes(inv, rules, |inv|);
  }
}
