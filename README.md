# Node-alignment analyzer: a verified model

The node-alignment analyzer reads OpenStreetMap minute diffs and flags
changesets that "align" a way. Aligning a way moves almost every one of its
nodes onto a straight line. This project models the analyzer's engine in Dafny
and proves properties of that model.

The model has three parts.

- **Snapshots.** A node snapshot holds an id, a version and fixed
  coordinates. A way snapshot holds an ordered list of node references and a
  checked flag. Each snapshot is kept for the lifetime of its changeset.
- **The changeset aggregator.** `add` stores the first snapshot seen for each
  id. A node added this way is queued as pending. `search_aligned_ways` runs
  when the changeset closes:
  - phase 1 runs `check_way` on every way the changeset touched, in id order;
  - phase 2 then takes the smallest pending node, asks the history API which
    ways hold it, and checks each of those ways that is not yet checked.
    It stops after the first aligned way; a detection removes that way's
    stored nodes from the pending set, and a round with no detection retires
    the node.

  `check_way` is the alignment heuristic, in this order:
  - a size gate;
  - a modification-rate gate, with the `size() - 2` exception for closed
    rings;
  - a moved-node count with an early exit;
  - a rebuild of the old and new shapes;
  - a two-ratio test on the residuals of a linear regression;
  - on success, the way's nodes leave the pending set.
- **The engine driver.** `analyze` sends the node and way elements of
  modification changes to their changeset, creating the changeset the first
  time its id appears. It records that id as encountered in the current
  batch. `init`, at the next batch boundary, searches and then deletes every
  changeset that was not encountered, in id order. It then clears the
  encountered set.

Files:

- `osm.dfy`: the values the engine receives from outside, namely diff
  elements, history-API oracles and regression results.
- `ordered.dfy`: the ascending order of `std::set` and `std::map`.
- `way.dfy` and `node.dfy`: the two snapshot classes.
- `alignment.dfy`: the decision of `check_way` as functions. `Aligned` is the
  verdict. The lemmas describe each stage.
- `changeset.dfy`: the thresholds, and the `Changeset` class. Its methods
  carry the source's loops and are proved against the functions in
  `alignment.dfy`.
- `analyzer.dfy`: the `Analyzer` class (the driver), and the routing of a
  batch stated as functions over a per-changeset `ChangesetView`.

Three behaviours of the code are easy to miss, and the model keeps each:

- Adding a node or a way whose id is already stored keeps the first snapshot,
  because `std::map::insert` never overwrites.
- Phase 1 does not put the ways it checks into the checked set. A way the
  changeset touched directly can therefore be evaluated a second time in
  phase 2. Each way is checked at most once only within phase 2.
- The three thresholds are process-wide mutable values with setters.

## Model

| member | source | states |
|---|---|---|
| Ordered.MinExists | src/changeset.cpp:85-87 | a non-empty set of pending ids has a smallest element, the one `begin()` designates |
| Ordered.MinOf | src/changeset.cpp:87 | the element chosen is the minimum of the set |
| Ordered.SortedIds | src/node_alignment_analyzer.cpp:194-196 | the traversal of a map's keys lists every key exactly once, in strictly increasing order |
| WaySnapshot.Way.constructor | include/way.h:62-74 | stores id, user, version and the in-changeset flag; a new way is not checked and has no node references |
| WaySnapshot.Way.SetNodeRefs | include/way.h:77-80 | afterwards the node references are exactly the list given, in order; the checked flag is unchanged |
| WaySnapshot.Way.SetChecked | include/way.h:95-98 | afterwards the way is checked; a second call changes nothing; the node list is unchanged |
| NodeSnapshot.Node.constructor | include/node.h:56-71 | stores id, user, version, coordinates and the in-changeset flag; no way is attached yet |
| NodeSnapshot.Node.AttachTo | src/node.cpp:26-29 | the way's id becomes a key; an id already present keeps its earlier way; other entries are unchanged; id, version and coordinates are constants |
| AlignmentSpec.SizeMinusTwo | src/changeset.cpp:140 | unsigned `size() - 2`: the exact difference for sizes of at least 2, and the residue modulo 2^64 below that |
| AlignmentSpec.RateExceeds | src/changeset.cpp:139-140 | comparing the rate `count / size` with a level is the same as comparing `count` with `level * size` |
| AlignmentSpec.ModifiedNodesSpec | src/changeset.cpp:128-137 | the touched nodes of a way number at most one per reference, exactly one per reference when every node was touched, and each is the stored snapshot of its id |
| AlignmentSpec.ModifiedNodeIds | src/changeset.cpp:255-260 | the ids the erase loop removes are exactly the way's references that the changeset stores |
| AlignmentSpec.HistoryCovers | src/changeset.cpp:150-151 | when the history knows the previous version of every stored node, it knows the previous version of every touched node of any way |
| AlignmentSpec.ScanFromSpec | src/changeset.cpp:146-162 | from any position the moved-node loop subtracts exactly the unmoved nodes it looks up, makes at most one lookup per touched reference, and stops before the end only when its guard fails |
| AlignmentSpec.ScanFromRecords | src/changeset.cpp:146-162 | from any position the moved-node loop records only ids of touched nodes, never overwrites a recorded position, and records the previous position of every moved node it looks up |
| AlignmentSpec.ScanAllSpec | src/changeset.cpp:144-164 | the moved count never exceeds the number of touched nodes and equals that number minus the unmoved nodes looked up; at most one lookup per touched reference; an early exit means the post-loop test fails |
| AlignmentSpec.LocatedSpec | src/changeset.cpp:170-198 | the rebuilt points belong to references of the way whose coordinates are known, never more than the references, and all of them when every coordinate is known |
| AlignmentSpec.RebuildSpec | src/changeset.cpp:168-209 | the old and new shapes have equal length and run point for point; the new point is the current position; the old point is the recorded previous position of a moved node and equals the new point otherwise |
| AlignmentSpec.Ratio | src/changeset.cpp:217-220 | a zero denominator gives the largest double; otherwise the ratio times the denominator is the numerator |
| AlignmentSpec.AlignedGates | src/changeset.cpp:122-223 | a detected way is longer than the minimum, passes the modification gate (or has all but two nodes touched), passes the post-loop test, and both residual ratios exceed the threshold |
| AlignmentSpec.StricterLimitsDetectLess | src/changeset.cpp:122-223 | raising the minimum way size or the minimum ratio never creates a detection |
| Changesets.TruncateToUInt32 | include/changeset.h:105-108 | a float stored into a `uint32_t` truncates toward zero into the 32-bit range |
| Changesets.Thresholds.constructor | src/changeset.cpp:323-326 | before any setter runs, the thresholds are 0.9, 100 and 2 |
| Changesets.Thresholds.SetModifRateMinLevel | include/changeset.h:111-114 | the getter then returns the value set |
| Changesets.Thresholds.SetMinAlignmentModificationRate | include/changeset.h:99-102 | the getter then returns the value set |
| Changesets.Thresholds.SetMinWayNodeNb | include/changeset.h:105-108 | the getter then returns the truncated value |
| Changesets.Reachable | src/changeset.cpp:87-91 | every way the history API lists for a stored node belongs to the finite list of ways reachable from the stored nodes |
| Changesets.CountUncheckedShrinks | src/changeset.cpp:96-99 | marking more ways checked never raises the count of unchecked candidates, and marking a listed way lowers it |
| Changesets.CollectModified | src/changeset.cpp:128-137 | the first loop of `check_way` collects exactly the touched nodes of the way, in way order |
| Changesets.CountMoved | src/changeset.cpp:144-162 | the moved-node loop ends with the moved count and the previous positions that the scan specification gives |
| Changesets.RebuildShapes | src/changeset.cpp:168-209 | the reconstruction loop builds exactly the old and new shapes that the rebuild specification gives |
| Changesets.Changeset.constructor | include/changeset.h:79-90 | stores id and user; starts with no ways, no nodes, nothing pending and nothing checked |
| Changesets.Changeset.AddWay | src/changeset.cpp:37-45 | the way's id becomes a key; an already stored way is kept with its node list; a new id gets a fresh snapshot with the way's id, user, version, the given node list, and not checked; every earlier node list is kept |
| Changesets.Changeset.AddNode | src/changeset.cpp:47-52 | the node's id becomes a key and is pending; an already stored snapshot is kept; a new id gets a fresh snapshot with the node's id, user, version and coordinates; pending ids always have a snapshot |
| Changesets.Changeset.Add | include/node_alignment_analyzer.h:89 | the element reaches the `add` overload for its kind: the changeset's view becomes `Deliver` of the old view; stored snapshots and node lists are kept; a new id gets the snapshot of the element |
| Changesets.Changeset.ForgetNodes | src/changeset.cpp:255-260 | removes exactly the ids of the given snapshots from the pending set |
| Changesets.Changeset.CheckWay | src/changeset.cpp:119-266 | returns the verdict `Aligned`; on a detection exactly the way's stored nodes leave the pending set; otherwise nothing changes |
| Changesets.Changeset.TouchedDetectionsSpec | src/changeset.cpp:76-81 | phase 1 reports only aligned ways, and every aligned way among those it visits |
| Changesets.Changeset.CheckTouchedWays | src/changeset.cpp:76-81 | visits every stored way once in increasing id order and reports the aligned ones in that order; exactly the stored nodes of the reported ways leave the pending set |
| Changesets.Changeset.VisitWay | src/changeset.cpp:80 | checking one stored way appends its detection exactly when it is aligned; exactly the stored nodes of that detection leave the pending set |
| Changesets.Changeset.CheckCandidates | src/changeset.cpp:92-101 | walks the API list until an aligned way; checks an entry only when its way is neither checked before nor named by an earlier entry, and marks it checked; every entry it checks before the stop is not aligned; when it stops early the last entry was checked, was aligned and is the only report, and exactly its stored nodes leave the pending set; otherwise every listed way is checked and nothing pending changes |
| Changesets.Changeset.CheckCandidate | src/changeset.cpp:96-100 | one entry of the round: checked and marked checked exactly when it names a way not checked before and not named earlier; not aligned means no report and the pending set unchanged; aligned means it is the report and its stored nodes leave the pending set |
| Changesets.Changeset.CheckPendingNode | src/changeset.cpp:87-112 | nothing is reported exactly when every entry the round checks is not aligned, and then every listed way is checked and the node is retired; otherwise the report is the first aligned checked entry, every checked entry before it is not aligned, the checked set grows by exactly the ways of the entries up to it, and exactly its stored nodes leave the pending set; each way is checked at most once; every way the round checks is its report or a listed entry that is not aligned, and the report is a way it checks; the pending count plus the unchecked reachable ways strictly decreases |
| Changesets.Changeset.Retire | src/changeset.cpp:109-112 | the node leaves the pending set and nothing else pending changes |
| Changesets.Changeset.CheckPendingNodes | src/changeset.cpp:85-114 | phase 2 ends with nothing pending; each way it checks is checked once and was not checked before; every detection is aligned and is a way it checked; every way it checks is reported or is named by a not-aligned entry in the API list of a node pending at the start; every node pending at the start either belongs to a reported way or had all its API-listed ways checked |
| Changesets.Changeset.SearchAlignedWays | src/changeset.cpp:71-116 | afterwards nothing is pending; phase 2 checks each way at most once; every reported way is aligned; every aligned way the changeset touched is reported; every way phase 2 checks is reported or is named by a not-aligned entry in the API list of a node pending at the start; every node pending at the start either belongs to a reported way or had all its API-listed ways checked |
| Changesets.RoundOutcome | src/changeset.cpp:92-112 | a round reports nothing exactly when every entry it checks is not aligned; a report is the first checked entry that is aligned, with every checked entry before it not aligned; a round with a report checked at least one way |
| Changesets.RoundSettles | src/changeset.cpp:92-101 | every way a round checks is either its report or named by a checked entry that is not aligned, and the report is a way the round checks |
| Changesets.RoundShrinks | src/changeset.cpp:85-112 | a round that retires its node or checks a new way lowers the pending count plus the unchecked reachable ways, so the phase-2 loop terminates |
| Changesets.AlignedEntryNotRejected | src/changeset.cpp:96-100 | once an entry the round checks is aligned, the round cannot count as having rejected every entry up to it |
| Changesets.AbsorbedOne | src/changeset.cpp:255-260 | the nodes a single detection removes are exactly the way's references that the changeset stores |
| Changesets.AbsorbedStep | src/changeset.cpp:255-260 | removing the nodes of one more batch of detections is removing the nodes of all detections so far |
| Analyzers.Routed | src/node_alignment_analyzer.cpp:222-240 | at most one element per change is handed on, and each is a node or a way |
| Analyzers.RoutedAppend | src/node_alignment_analyzer.cpp:222-225 | elements are handed on in input order: routing two batches is routing the first, then the second |
| Analyzers.RoutedMembers | src/node_alignment_analyzer.cpp:227-240 | an element is handed on exactly when a modification change carries it and it is a node or a way |
| Analyzers.RoutedIgnores | src/node_alignment_analyzer.cpp:227 | a batch without node or way modifications hands nothing on |
| Analyzers.ChangesetIdsMembers | include/node_alignment_analyzer.h:77-82 | the changesets a batch marks encountered are exactly those of its routed elements |
| Changesets.Deliver | include/node_alignment_analyzer.h:89 | delivering an element never marks a way checked and keeps every pending node stored |
| Analyzers.DeliverAllSpec | include/node_alignment_analyzer.h:83-89 | after a batch a changeset holds exactly what it held plus the nodes and ways of that changeset in the batch; those nodes are pending; nothing becomes checked |
| Analyzers.Analyzer.constructor | include/node_alignment_analyzer.h:60-61 | the driver starts with no changeset open and none encountered |
| Analyzers.Analyzer.Open | include/node_alignment_analyzer.h:82-88 | the id is marked encountered; an open changeset is reused; otherwise a new, empty one is created with the element's user |
| Analyzers.Analyzer.GenericAnalyze | include/node_alignment_analyzer.h:65-90 | the element's changeset is marked encountered, created with the element's user if absent, and receives the element; its stored snapshots and node lists are kept; a new id gets the element's snapshot; the keys grow by at most that id; every other changeset is unchanged |
| Analyzers.Analyzer.Feed | include/node_alignment_analyzer.h:89 | the element's own changeset receives it, keeping its stored snapshots and storing the element's snapshot for a new id; every other changeset's view is unchanged |
| Analyzers.Analyzer.Analyze | src/node_alignment_analyzer.cpp:220-248 | after a batch every changeset holds what the routed elements deliver to it, in order; encountered ids and keys grow by exactly the routed changesets; existing aggregators are kept |
| Analyzers.Analyzer.AnalyzeChange | src/node_alignment_analyzer.cpp:226-246 | one change: a node or way modification is handed on and extends what the driver has reached by that element; any other change hands nothing on; existing aggregators are kept |
| Analyzers.Analyzer.ClosedChangesets | src/node_alignment_analyzer.cpp:194-202 | lists exactly the open changesets not encountered, in increasing id order |
| Analyzers.Analyzer.CloseChangeset | src/node_alignment_analyzer.cpp:208-212 | the changeset is searched and deleted; its search drains the pending set; its detections are only aligned ways and include every aligned way it touched; each node pending before lies on a detected way or had all its API-listed ways checked; each way newly checked is detected or named by a not-aligned entry in the API list of a node pending before; the others are untouched |
| Analyzers.Analyzer.CloseAll | src/node_alignment_analyzer.cpp:204-213 | closes the listed changesets in order, one report each; removes exactly those keys; leaves every other changeset as it was |
| Analyzers.Analyzer.Init | src/node_alignment_analyzer.cpp:187-217 | every changeset not encountered is searched once, in id order, and deleted; the keys become the old keys intersected with the encountered set; the others are untouched; the encountered set is emptied |

## Left out

- The linear regression (include/linear_regression.h) is a parameter `regress` from a shape to its summed and largest squared residuals. Its floating-point behaviour is not modelled, including the empty shape and the vertical branch.
- Report, GPX and SVG output are not modelled: the HTML writes, `create_gpx` and `create_svg` in src/changeset.cpp, and src/svg_report.cpp. The `p_stream` and report-stream parameters are dropped.
- The analyzer's constructor and destructor are not modelled. These are configuration parsing, report-file naming and the HTML header. The plugin registration files are left out too.
- The history API is three oracle functions in `HistoryApi`: `nodeVersion`, `latestNode` and `nodeWays`. `set_api` and the static `m_api` member are left out. Memory release of the API's results and of the snapshots is not modelled.
- `Changesets.Changeset.CheckWay`: the `assert(l_previous_node)` becomes a precondition. It requires a known previous version for every touched node of the way. The source looks up only the nodes before the early exit.
- `Changesets.Changeset.SearchAlignedWays`: it requires a known previous version for every stored node, because any stored node can be reached in phase 2.
- `Changesets.Changeset.CheckPendingNodes` (and so `SearchAlignedWays`): the round-by-round outcome of phase 2 (which entry is reported and that every entry checked before it was not aligned) is stated per round by `CheckPendingNode`. The loop's contract keeps a summary: each way checked is reported or was found not aligned, each report is a way checked, and each pending node lies on a reported way or had all its listed ways checked. The order of the rounds and which node each round took are not carried up.
- `Analyzers.Analyzer.Analyze`: the snapshot contents after a batch are stated per element by `GenericAnalyze` (kept snapshots, the element's snapshot for a new id). `Analyze` states the views, the encountered ids and the keys, not the snapshot objects.
- `Analyzers.Analyzer.GenericAnalyze`: the kept snapshots are stated for the element's own changeset; every other changeset is stated `unchanged` as a whole.
- Rates and ratios are exact reals, not C++ `float` or `double` divisions. Coordinates are exact reals too, so the narrowing of node coordinates to `float` in include/node.h:50-51 is not modelled. Only exact equality of coordinates is used.
- `l_nb_moved_node` is a `uint32_t`. The model counts with `nat`, so a way with more than 2^32 touched nodes would wrap in the source but not here.
- `Analyzers.Analyzer.Init`: each closed changeset's detections are stated by `Analyzers.Analyzer.CloseChangeset`, not carried into `Init`'s contract. `Init` states which changesets are searched, in which order, and what remains.
- `Analyzers.Analyzer.CloseAll`: it states the order and the removed keys, not the detections. Those are per changeset in `CloseChangeset`.
- The invalid core type (src/node_alignment_analyzer.cpp:241-244) and the failed cast in `generic_analyze` both exit the process. They are preconditions of `Analyze` and `GenericAnalyze`.
- The getters of the snapshots and the thresholds are field reads with no contract. The way's unused `m_nodes` map is not modelled.
- The changeset's constructor takes the analyzer and the report stream, and include/node_alignment_analyzer.h:87 passes four arguments to a five-argument constructor. The model builds a changeset from its id and user only. The `m_analyzer.create_report()` call (src/changeset.cpp:245) belongs to the output that is left out.
- Console logging is left out.
