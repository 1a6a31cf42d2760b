# Gmake dependency-graph engine in Dafny

Gmake writes a `Makefile` for a C++ project by reading the project's files.
Its core is the same in both versions of the tool: scan each source and
header file for `#include "..."` lines and resolve each include target to
the first project file with the same file name. That gives a dependency
graph, from which it plans the Makefile's rules. This project models that
engine and proves what it computes.

- `src/gmake.cpp` is the later version (Filesystem TS). It gives every
  scanned file a node and extracts the text between the first two double
  quotes of an include line. For each compilation unit it lists the
  transitive dependencies, found by a depth-first walk of the graph.
- `gmake.cpp` is the earlier version (boost::filesystem). It scans only
  `.cpp` and `.h` files and keeps everything after `#include"` except the
  last character. It orders the headers by out-degree with an in-place
  exchange sort and pairs each header with its `.cpp` file.

Modules, one file each:

- `Strings` (`strings.dfy`): `std::string::find` (`Find`) and the removal
  of one character (`Without`).
- `Paths` (`paths.dfy`): `filename()`, `extension()` and `stem()`,
  modelled on the last `/`-separated component and its last `.`.
- `Graphs` (`graphs.dfy`): the graph value `Digraph` and the class `Graph`
  whose `AddNode` and `Connect` update it in place. Also walks,
  reachability, and `Ranked`, a rank map that witnesses that no cycle can
  be reached from the nodes it ranks.
- `Resolver` (`resolver.dfy`): the file inventory, `findPath`, and the
  graph builder both versions share. The builder is a left fold over the
  inventory. It is parameterised by `Rules`: which files are scanned,
  which extractor is used, and whether a scanned file always gets a node.
- `FsGmake` (`fs_gmake.dfy`): `src/gmake.cpp`.
- `BoostGmake` (`boost_gmake.dfy`): `gmake.cpp`, plus lemmas comparing its
  extractor with the later one.

The model takes the inventory as input, not a directory. It is a sequence
of `FileEntry(path, lines)` values, where `lines` is `None` when the file
cannot be opened. Methods that the source writes as loops are proved
against specification functions (`Erased`, `Build`, `DeepDependencies`,
`Headers`, `PairedAll`, ...). The properties are proved about those
functions.

## Model

| member | source | states |
|---|---|---|
| Strings.Find | src/gmake.cpp:19 | `find` returns an index where `sub` occurs at or after `from`, and no earlier one; -1 means there is no occurrence |
| Strings.Without | gmake.cpp:12-20 | the result holds exactly the characters of the input other than `c`, and is no longer |
| Strings.WithoutAppend | gmake.cpp:14-18 | removing a character distributes over concatenation, so the filter keeps order |
| Paths.Filename | src/gmake.cpp:88 | the file name has no `/`; `FilenameIsSuffix` shows it is the suffix after the last `/` |
| Paths.FilenameIsSuffix | src/gmake.cpp:118 | the file name is a suffix of the path, preceded by `/` when shorter |
| Paths.Extension | src/gmake.cpp:112 | the extension is empty, or a `.` followed by no other `.` |
| Paths.Stem | src/gmake.cpp:164 | stem followed by extension is the file name |
| Paths.ExtensionIsSuffix | src/gmake.cpp:113 | a path ends with an extension-shaped suffix exactly when that suffix is its extension |
| Graphs.Digraph.WithNode | src/gmake.cpp:114 | `addNode` adds `id` with no out-edges when it is new and changes nothing otherwise |
| Graphs.Digraph.WithEdge | src/gmake.cpp:120 | `connect` creates both endpoints as needed, `from` first, and appends `to` to the out-edges of `from` only |
| Graphs.Graph.constructor | src/gmake.cpp:107 | a new graph is empty and well formed |
| Graphs.Graph.AddNode | src/gmake.cpp:114 | the object afterwards holds its old value with `id` added as `WithNode` states |
| Graphs.Graph.Connect | gmake.cpp:93 | the object afterwards holds its old value with the edge added as `WithEdge` states |
| Graphs.CycleHasNoRank | src/gmake.cpp:129-138 | no cycle can be reached from a ranked entry, so the walk's precondition excludes every graph on which the source's recursion from that entry would not end |
| Resolver.FirstWithFilename | src/gmake.cpp:86-93 | the index of a path with file name `name` and none earlier, or -1 when no path has it |
| Resolver.FindPath | gmake.cpp:71-78 | the loop returns the first index whose file name is `dep`, or -1 |
| Resolver.TargetIsFirstMatch | src/gmake.cpp:116-121 | an include resolves to nothing iff no inventory file has its file name, otherwise to the first file that has |
| Resolver.CollectMembers | src/gmake.cpp:69-77 | a value is collected from a file's lines iff some line yields it |
| Resolver.CollectAppend | src/gmake.cpp:76 | the values of two blocks of lines are those of the first followed by those of the second |
| Resolver.ResolvedAreInventory | src/gmake.cpp:118-120 | every edge target is an inventory path |
| Resolver.ConnectAllOut | src/gmake.cpp:116-122 | connecting a file appends its resolved targets, in order, to its out-edges and changes no other node's |
| Resolver.ConnectDependencies | src/gmake.cpp:116-122 | the inner loop over a file's include targets leaves the graph connected to their resolved matches in order, as `ConnectAll` over `Resolve` |
| Resolver.ConnectAllKeys | src/gmake.cpp:116-122 | connecting creates exactly the file and its targets as nodes and keeps the graph well formed |
| Resolver.ScanFileOut | src/gmake.cpp:113-124 | scanning a file changes only that file's out-edges: it appends its resolved targets when the rules scan its path and it can be read |
| Resolver.ScanFileValid | src/gmake.cpp:113-124 | scanning a file keeps the graph well formed and adds no node other than the file and inventory files |
| Resolver.BuildOut | src/gmake.cpp:109-125 | over an inventory without repeated paths, the built graph is well formed, its nodes are inventory files, and each file's out-edges are its resolved targets in line order when it is scanned and readable, otherwise none |
| Resolver.ScannedHasNode | src/gmake.cpp:113-114 | when the rules add a node per scanned file, every scanned inventory file is a node |
| Resolver.ScanFileNodes | gmake.cpp:87-95 | without a node per scanned file, a scan adds exactly the file and its resolved targets as nodes, and only when at least one target resolves |
| Resolver.BuildNodes | gmake.cpp:80-100 | without a node per scanned file, the nodes are exactly the files that got an edge and the files their edges reach |
| FsGmake.EraseAll | src/gmake.cpp:16-22 | the loop computes `Erased`: cut out the first occurrence until none is left |
| FsGmake.ErasedHasNoOccurrence | src/gmake.cpp:19-21 | once `eraseAll` stops, `sub` occurs nowhere in the result |
| FsGmake.ErasedSpaces | src/gmake.cpp:70 | erasing `" "` removes every space and keeps all other characters in order |
| FsGmake.StartWith | src/gmake.cpp:24-26 | true iff `sub` is a prefix of `str` |
| FsGmake.EndWith | src/gmake.cpp:28-30 | true iff `sub` is a suffix of `str`; false when `str` is shorter |
| FsGmake.Contains | src/gmake.cpp:32-35 | true iff the value is in the vector |
| FsGmake.EndWithAny | src/gmake.cpp:56-61 | true iff the uid ends with one of the extensions |
| FsGmake.IsSrc | src/gmake.cpp:55-62 | `isSrc` holds iff the uid's extension is one of `.cpp .c++ .cxx .cp .cc` |
| FsGmake.SrcSuffixIsExtension | src/gmake.cpp:56-61 | ending with a source extension and having it as the extension are the same test |
| FsGmake.LineDependencyBetweenQuotes | src/gmake.cpp:70-77 | a line yields a target iff, without spaces, it starts with `#include` and holds two double quotes; the target is the text between the first two |
| FsGmake.QuotedHasTwoQuotes | src/gmake.cpp:71-74 | on a space-free line: a target iff `#include` prefix and two double quotes |
| FsGmake.QuotedIsFirstPair | src/gmake.cpp:72-75 | on a space-free line the target lies strictly between the first and the second double quote |
| FsGmake.LineDependencyClean | src/gmake.cpp:70-76 | a target contains no double quote and no space |
| FsGmake.ReadLine | src/gmake.cpp:69-78 | the loop body computes the line's target as `LineDependency` defines it |
| FsGmake.ReadFileDependencies | src/gmake.cpp:64-84 | false, with `deps` untouched, for an unreadable file; otherwise true with each line's target appended in line order |
| FsGmake.GetDependencyGraph | src/gmake.cpp:106-127 | the graph built in place equals the fold `Build` over the inventory with this version's rules |
| FsGmake.ScanOneFile | src/gmake.cpp:110-124 | one pass of the loop body leaves the graph as `ScanFile` of its old value under this version's rules |
| FsGmake.GraphShape | src/gmake.cpp:106-127 | every file with a source or `EXTS_HDR` extension is a node; nodes are inventory files; out-edges are the resolved targets of readable scanned files, else none |
| FsGmake.FilterGraph | src/gmake.cpp:95-104 | keeps exactly the keys passing the filter, in the map's sorted key order |
| FsGmake.GetDeepDependencies | src/gmake.cpp:129-138 | the recursive loop computes `DeepDependencies` on a graph with a rank map |
| FsGmake.DeepIsReachable | src/gmake.cpp:129-138 | the walk lists exactly the nodes reachable by one or more edges, every direct successor included |
| FsGmake.DeepSound | src/gmake.cpp:132-135 | every listed node is reachable from the entry |
| FsGmake.DeepComplete | src/gmake.cpp:132-135 | the end of every walk from the entry is listed |
| FsGmake.DeepOfMembers | src/gmake.cpp:132-136 | the walk over out-edges lists each target and its own deep dependencies, nothing else |
| FsGmake.DiamondListsSharedHeaderTwice | src/gmake.cpp:130-137 | no visited set: on a diamond the shared header appears once per path |
| FsGmake.CycleAsideIsAdmitted | src/gmake.cpp:129-138 | a cycle between two headers that `main.cpp` does not reach leaves the walk from `main.cpp` defined and empty |
| FsGmake.ObjectRules | src/gmake.cpp:163-171 | one rule per compilation unit |
| FsGmake.ObjectRuleAt | src/gmake.cpp:163-171 | rule `i` is built from source `i`: its stem, the source, then its deep dependencies |
| FsGmake.ObjectRulePrerequisites | src/gmake.cpp:163-171 | rule `i` is named by the source's stem and lists the source first, then exactly the nodes reachable from it |
| FsGmake.MainStem | src/gmake.cpp:164 | the stem of `main.cpp` is `main`, the name its object rule is written under |
| BoostGmake.RmSpaces | gmake.cpp:12-20 | the result is the input with every `' '` removed and the rest in order; it holds no space |
| BoostGmake.StartsWith | gmake.cpp:22-26 | true iff `sub` is a prefix of `str` |
| BoostGmake.EndsWith | gmake.cpp:28-32 | false when `str` is shorter than `sub`, otherwise whether its last `|sub|` characters are `sub` |
| BoostGmake.HelpersAgree | gmake.cpp:22-32 | the earlier prefix and suffix tests agree with the later `startWith` and `endWith` on every input |
| BoostGmake.LineDependencyAfterPrefix | gmake.cpp:40-45 | a line yields a dependency iff it starts with `#include"` without spaces; the dependency is the rest less its last character, whatever that is |
| BoostGmake.AfterQuoteShape | gmake.cpp:41-43 | on a space-free line: defined exactly after the prefix, then the rest less its last character (empty rest kept) |
| BoostGmake.ReadDepsLine | gmake.cpp:39-45 | the loop body computes the line's dependency as `LineDependency` defines it |
| BoostGmake.ReadDeps | gmake.cpp:34-51 | false, with `deps` untouched, for an unreadable file; otherwise true with each line's dependency appended in line order |
| BoostGmake.VariantsAgreeOnPlainInclude | gmake.cpp:41-44 | on `#include"d"` with nothing after the quote both versions extract `d` |
| BoostGmake.TextAfterQuoteIsKept | gmake.cpp:42-43 | with text after the closing quote the earlier version keeps the quote and that text less one character; the later extracts `d` |
| BoostGmake.TrailingCommentSample | gmake.cpp:42-43 | `#include"a.h"//x` yields `a.h"//` in the earlier version and `a.h` in the later |
| BoostGmake.GetDependencyGraph | gmake.cpp:80-100 | the graph built in place equals the fold `Build` with this version's rules: only `.cpp` and `.h` scanned, and no node created except by `connect` |
| BoostGmake.ScanOneFile | gmake.cpp:84-97 | one pass of the loop body leaves the graph as `ScanFile` of its old value under this version's rules |
| BoostGmake.GraphShape | gmake.cpp:80-100 | well formed; nodes are inventory files; out-edges of a file are its resolved dependencies when its extension is exactly `.cpp` or `.h` and it is readable, else none; the nodes are exactly such files with at least one resolved dependency and the files those dependencies resolve to |
| BoostGmake.NoHashNoDependency | gmake.cpp:40-41 | a line without `#` yields no dependency |
| BoostGmake.LoneMainHasNoNode | gmake.cpp:168-176 | a project made of one `main.cpp` without `#` gives an empty graph, so the entry lookup finds no node |
| BoostGmake.LoneMainHasNodeLater | src/gmake.cpp:113-114 | under the later version's rules the same project's `main.cpp` is a node |
| BoostGmake.HeadersMembers | gmake.cpp:106-110 | a name is a collected header iff it is a node ending with `.h` |
| BoostGmake.GetOrderedDependencies | gmake.cpp:102-123 | the result is a permutation of the header nodes, sorted non-decreasing by out-degree |
| BoostGmake.ExchangeRound | gmake.cpp:113-119 | one inner pass extends the sorted prefix by position `i`: no later element has a smaller out-degree; positions before `i` are untouched and the multiset is kept |
| BoostGmake.ExchangeStep | gmake.cpp:114-118 | one comparison swaps `a[i]` and `a[j]` exactly when `a[i]` has more out-edges, and changes nothing else |
| BoostGmake.ExchangeSort | gmake.cpp:112-120 | the nested exchange loops sort by out-degree and permute the array |
| BoostGmake.FindEntryNode | gmake.cpp:168-175 | `None` (the null pointer) iff no node has the entry's file name; otherwise the first node that has |
| BoostGmake.PairedSpec | gmake.cpp:146-164 | a header gets a rule iff a node is named `<stem>.cpp`; the rule names the first such node, the header and the header's out-connections |
| BoostGmake.PairedAllAppend | gmake.cpp:146-165 | one more header adds its own rule, if any, at the end |
| BoostGmake.PairHeaders | gmake.cpp:146-165 | the loop over the ordered headers produces `PairedAll`, one rule per paired header in header order |

## Left out

- Directory walking (`listdir` in both files) is not modelled. The inventory is an input sequence, in the walk's order.
- A line is the file's bytes, one `char` per byte, without the line terminator `getline` removes. So dropping the last character drops the last byte, as in the source, even inside a multi-byte UTF-8 sequence.
- File reading is not modelled: `std::ifstream`, `getline`, the `eof` loop and `close`. A file is its lines, or `None` when it cannot be opened. When a file ends with a newline, the `eof` loop reads one more empty line, which yields nothing in either version, so it is omitted.
- `main`, `help`, the argument parser and writing the `Makefile` are not modelled.
- The text of the generated Makefile is not modelled (`CC =`, `ODIR`, `OBJS`, the link, mkdir and clean rules, and the `$(ODIR)/<stem>.o` spelling of prerequisites). The model keeps the data each rule is built from: the stem, the source and the prerequisite node names (`ObjectRule`, `HeaderRule`).
- The graph library is not modelled (`Graph`, `GraphEntry`, `Node`, `Edge`). The model's graph has only `addNode`, `connect`, the node list and out-edge lists. It does not claim that duplicate edges or self-edges are dropped.
- `EXTS_HDR` is a parameter, since its value is defined outside the modelled files.
- `fs::path` and `boost::filesystem::path` are modelled as plain strings: the file name is the text after the last `/`, and the extension starts at its last `.`. Root names, `.` and `..` beyond having no extension, and platform separators are not modelled.
- Paths.Filename: gives the empty string for a path ending in `/`, where `filename()` gives `.` (Filesystem TS, boost v3). Neither name matches an inventory file, so resolution is unaffected.
- `std::map` iteration order in `filterGraph` comes in as a key sequence that must be strictly increasing. The map itself is not modelled.
- `getNodes()` is taken to list nodes in creation order. `getOutConnections(name)` is taken as the out-edge list, and its count as the number of those edges.
- BoostGmake.GetOrderedDependencies: does not fix the order of headers with equal out-degree. The exchange sort is not stable, and the contract states only the permutation and the ordering.
- FsGmake.GetDeepDependencies: requires a rank map over the nodes reachable from the entry, so it covers the graphs in which no cycle is reachable from the entry. `Graphs.CycleHasNoRank` proves that a ranked entry reaches no cycle; the converse, that every such graph has a rank map, is not proved.
- FsGmake.EraseAll: requires a non-empty `sub`, because with an empty one `find` always returns 0 and the source loops forever.
- BoostGmake.FindEntryNode: returns `None` where the source keeps `NULL` and then dereferences it. The crash is not modelled; `LoneMainHasNoNode` shows an input that reaches it.
- `int` conversions of `size_t` are not modelled (`find` results stored in `int`, `npos` read as -1). Lines and paths are assumed shorter than 2^31 characters.

## Findings

| source | as written | input that shows it | evidently intended | confidence | as-written member | corrected member |
|---|---|---|---|---|---|---|
| gmake.cpp:42-43 | `readDeps` drops the last character after `#include"` without checking that it is the closing quote | `#include"a.h"//x` (or a CRLF line `#include"a.h"` followed by `\r`) yields `a.h"//` (or `a.h"`), so no file matches and the edge is lost | the text between the two quotes, `a.h` | not executed | BoostGmake.TextAfterQuoteIsKept | FsGmake.LineDependencyBetweenQuotes |
| gmake.cpp:168-176 | `getDependencyGraph` creates nodes only through `connect`, so a file with no resolved include that no file includes has no node; the entry lookup then leaves `entryNode` null and line 176 dereferences it | entry point `main.cpp` in a project whose only file is that `main.cpp`, with no `#` in it | every scanned file is a node, as the later version's `addNode` (src/gmake.cpp:114) makes it | not executed | BoostGmake.LoneMainHasNoNode | BoostGmake.LoneMainHasNodeLater |
