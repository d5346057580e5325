/** The decision procedure behind `changeset::check_way`, stated as functions
    of the changeset's node snapshots, the history API, the regression and the
    thresholds. The method `Changesets.Changeset.CheckWay` runs the same steps
    with loops and is proved to return `Aligned(...)`. */
module AlignmentSpec {
  import opened Osm
  import opened NodeSnapshot

  /** The three process-wide thresholds, as values. */
  datatype Limits = Limits(modifRateMinLevel: real,
                           minAlignmentModificationRate: real,
                           minWayNodeNb: nat)

  /** `size_t` is 64 bits wide: `size() - 2` wraps below 2. */
  const SizeModulus: int := 0x1_0000_0000_0000_0000

  /** The largest finite `double`, (2^53 - 1) * 2^971. */
  const MaxDouble: real := 179769313486231570814527423731704356798070567525844996598917476803157260780028538760589558632766878171540458953514382464234321326889464182768467546703537516986049910576551282076245490090389328944075868508455133942304583236903222948165808559332123348274797826204144723168738177180919299881250404026184124858368.0

  /** Unsigned `n - 2`: the residue of n - 2 modulo 2^64. */
  function SizeMinusTwo(n: nat): (r: nat)
    ensures n >= 2 ==> r + 2 == n
    ensures n < SizeModulus ==> r < SizeModulus && (r + 2) % SizeModulus == n
  {
    if n >= 2 then n - 2 else n + SizeModulus - 2
  }

  /** `(float)count / (float)total`, computed exactly. */
  function Rate(count: nat, total: nat): (r: real)
    requires total > 0
  {
    count as real / total as real
  }

  /** Comparing a rate with a level is comparing the count with level * total. */
  lemma RateExceeds(count: nat, total: nat, level: real)
    requires total > 0
    ensures Rate(count, total) > level <==> count as real > level * total as real
  {
    assert Rate(count, total) * total as real == count as real;
    if Rate(count, total) > level {
      assert Rate(count, total) * total as real > level * total as real;
    } else {
      assert Rate(count, total) * total as real <= level * total as real;
    }
  }

  /** Every stored snapshot is keyed by its own id. */
  predicate Keyed(nodes: map<int, Node>)
  {
    forall k :: k in nodes ==> nodes[k].id == k
  }

  /** The snapshots of the way's nodes that this changeset touched, one per
      reference (a closed ring lists its first node twice), in way order. */
  function ModifiedNodes(refs: seq<int>, nodes: map<int, Node>): (mods: seq<Node>)
  {
    if refs == [] then []
    else
      var last := refs[|refs| - 1];
      ModifiedNodes(refs[..|refs| - 1], nodes) + (if last in nodes then [nodes[last]] else [])
  }

  /** There is at most one touched node per reference, exactly one per
      reference when the changeset touched every node of the way, and each is
      the stored snapshot of its id. */
  lemma {:induction false} ModifiedNodesSpec(refs: seq<int>, nodes: map<int, Node>)
    ensures var mods := ModifiedNodes(refs, nodes);
      && |mods| <= |refs|
      && (|mods| == |refs| <==> forall r :: r in refs ==> r in nodes)
      && (Keyed(nodes) ==>
            forall j :: 0 <= j < |mods| ==> mods[j].id in nodes && nodes[mods[j].id] == mods[j])
  {
    if refs != [] {
      var front, last := refs[..|refs| - 1], refs[|refs| - 1];
      assert refs == front + [last];
      ModifiedNodesSpec(front, nodes);
      var mods, prefix := ModifiedNodes(refs, nodes), ModifiedNodes(front, nodes);
      assert mods == prefix + (if last in nodes then [nodes[last]] else []);
      if |mods| == |refs| {
        assert |prefix| == |front| && last in nodes;
      }
    }
  }

  /** The ids `check_way` removes from the pending set on a detection. */
  function ModifiedIds(refs: seq<int>, nodes: map<int, Node>): set<int>
  {
    set r | r in refs && r in nodes
  }

  function IdsOf(mods: seq<Node>): set<int>
  {
    set j | 0 <= j < |mods| :: mods[j].id
  }

  /** The ids of the modified snapshots are exactly the way's references that
      the changeset touched. */
  lemma {:induction false} ModifiedNodeIds(refs: seq<int>, nodes: map<int, Node>)
    requires Keyed(nodes)
    ensures IdsOf(ModifiedNodes(refs, nodes)) == ModifiedIds(refs, nodes)
    ensures IdsOf(ModifiedNodes(refs, nodes)) <= nodes.Keys
  {
    if refs != [] {
      var front, last := refs[..|refs| - 1], refs[|refs| - 1];
      assert refs == front + [last];
      ModifiedNodeIds(front, nodes);
      ModifiedNodesSpec(front, nodes);
      var mods, prefix := ModifiedNodes(refs, nodes), ModifiedNodes(front, nodes);
      assert mods == prefix + (if last in nodes then [nodes[last]] else []);
      forall x | x in IdsOf(mods) ensures x in ModifiedIds(refs, nodes) {
        var j :| 0 <= j < |mods| && mods[j].id == x;
        if j < |prefix| {
          assert x in IdsOf(prefix);
        }
      }
      forall x | x in ModifiedIds(refs, nodes) ensures x in IdsOf(mods) {
        if x in front {
          assert x in ModifiedIds(front, nodes);
          var j :| 0 <= j < |prefix| && prefix[j].id == x;
          assert mods[j] == prefix[j];
        } else {
          assert mods[|prefix|] == nodes[last];
        }
      }
    }
  }

  /** The coordinates of a node's previous version, as the API reports them. */
  function PriorOf(n: Node, history: (int, int) -> Option<Coord>): Option<Coord>
  {
    history(n.id, n.version - 1)
  }

  predicate PriorsKnown(mods: seq<Node>, history: (int, int) -> Option<Coord>)
  {
    forall j :: 0 <= j < |mods| ==> PriorOf(mods[j], history).Some?
  }

  /** The history API knows the previous version of every stored node. */
  predicate AllPriorsKnown(nodes: map<int, Node>, history: (int, int) -> Option<Coord>)
  {
    forall k :: k in nodes ==> PriorOf(nodes[k], history).Some?
  }

  /** When every stored node has a known previous version, so does every
      touched node of any way. */
  lemma HistoryCovers(refs: seq<int>, nodes: map<int, Node>, history: (int, int) -> Option<Coord>)
    requires Keyed(nodes) && AllPriorsKnown(nodes, history)
    ensures PriorsKnown(ModifiedNodes(refs, nodes), history)
  {
    var mods := ModifiedNodes(refs, nodes);
    ModifiedNodesSpec(refs, nodes);
    forall j | 0 <= j < |mods| ensures PriorOf(mods[j], history).Some? {
      assert nodes[mods[j].id] == mods[j];
    }
  }

  /** A touched node whose previous version sits at exactly the same place. */
  predicate Unmoved(n: Node, history: (int, int) -> Option<Coord>)
  {
    PriorOf(n, history) == Some(n.Position())
  }

  function CountUnmoved(ms: seq<Node>, history: (int, int) -> Option<Coord>): nat
  {
    if ms == [] then 0
    else (if Unmoved(ms[0], history) then 1 else 0) + CountUnmoved(ms[1..], history)
  }

  /** The guard of the moved-node loop and, after it, the test that sends the
      way to the geometric comparison. */
  predicate KeepScanning(moved: nat, total: nat, level: real)
    requires total > 0
  {
    Rate(moved, total) > level || moved >= SizeMinusTwo(total)
  }

  /** The state the moved-node loop ends in: the moved count, the previous
      coordinates recorded for moved nodes, and how many nodes it looked up. */
  datatype Scan = Scan(moved: nat, previous: map<int, Coord>, queried: nat)

  /** The moved-node loop from position `i` on. */
  function ScanFrom(mods: seq<Node>, i: nat, moved: nat, previous: map<int, Coord>,
                    total: nat, level: real, history: (int, int) -> Option<Coord>): (s: Scan)
    requires i <= |mods| && total > 0 && |mods| - i <= moved
    requires PriorsKnown(mods, history)
    decreases |mods| - i
  {
    if i < |mods| && KeepScanning(moved, total, level) then
      var n := mods[i];
      var prior := PriorOf(n, history).value;
      if prior == n.Position() then
        ScanFrom(mods, i + 1, moved - 1, previous, total, level, history)
      else
        ScanFrom(mods, i + 1, moved,
                 if n.id in previous then previous else previous[n.id := prior],
                 total, level, history)
    else
      Scan(moved, previous, i)
  }

  /** What the loop from position `i` counts: every node it looked up and
      found unmoved was subtracted, it looks each node up at most once, and
      it stops early only once the guard fails. */
  lemma {:induction false} ScanFromSpec(mods: seq<Node>, i: nat, moved: nat, previous: map<int, Coord>,
                                        total: nat, level: real, history: (int, int) -> Option<Coord>)
    requires i <= |mods| && total > 0 && |mods| - i <= moved
    requires PriorsKnown(mods, history)
    ensures var s := ScanFrom(mods, i, moved, previous, total, level, history);
      && i <= s.queried <= |mods|
      && s.moved + CountUnmoved(mods[i..s.queried], history) == moved
      && (s.queried < |mods| ==> !KeepScanning(s.moved, total, level))
    decreases |mods| - i
  {
    var s := ScanFrom(mods, i, moved, previous, total, level, history);
    if i < |mods| && KeepScanning(moved, total, level) {
      var n := mods[i];
      var prior := PriorOf(n, history).value;
      var next := if prior == n.Position() || n.id in previous then previous
                  else previous[n.id := prior];
      var moved' := if prior == n.Position() then moved - 1 else moved;
      ScanFromSpec(mods, i + 1, moved', next, total, level, history);
      assert s == ScanFrom(mods, i + 1, moved', next, total, level, history);
      assert mods[i..s.queried] == [n] + mods[i + 1..s.queried];
    } else {
      assert mods[i..i] == [];
    }
  }

  /** What the loop from position `i` records: only ids of touched nodes,
      never overwriting a recorded position, and the previous position of
      every moved node it looked up. */
  lemma {:induction false} ScanFromRecords(mods: seq<Node>, i: nat, moved: nat, previous: map<int, Coord>,
                                           total: nat, level: real, history: (int, int) -> Option<Coord>)
    requires i <= |mods| && total > 0 && |mods| - i <= moved
    requires PriorsKnown(mods, history)
    ensures var s := ScanFrom(mods, i, moved, previous, total, level, history);
      && s.queried <= |mods|
      && s.previous.Keys <= previous.Keys + IdsOf(mods)
      && (forall k :: k in previous ==> k in s.previous && s.previous[k] == previous[k])
      && (forall j :: i <= j < s.queried && !Unmoved(mods[j], history) ==> mods[j].id in s.previous)
    decreases |mods| - i
  {
    if i < |mods| && KeepScanning(moved, total, level) {
      var n := mods[i];
      var prior := PriorOf(n, history).value;
      var next := if prior == n.Position() || n.id in previous then previous
                  else previous[n.id := prior];
      var moved' := if prior == n.Position() then moved - 1 else moved;
      ScanFromRecords(mods, i + 1, moved', next, total, level, history);
      assert n.id in IdsOf(mods);
      assert ScanFrom(mods, i, moved, previous, total, level, history)
          == ScanFrom(mods, i + 1, moved', next, total, level, history);
    }
  }

  /** The whole moved-node loop, starting with every touched node counted as
      moved. */
  function ScanAll(mods: seq<Node>, total: nat, level: real,
                   history: (int, int) -> Option<Coord>): Scan
    requires total > 0 && PriorsKnown(mods, history)
  {
    ScanFrom(mods, 0, |mods|, map[], total, level, history)
  }

  /** After the whole loop the moved count is the number of touched nodes
      minus the unmoved ones looked up; it stopped early only when the guard
      failed; each moved node looked up has its previous position recorded. */
  lemma ScanAllSpec(mods: seq<Node>, total: nat, level: real, history: (int, int) -> Option<Coord>)
    requires total > 0 && PriorsKnown(mods, history)
    ensures var s := ScanAll(mods, total, level, history);
      && s.queried <= |mods|
      && s.previous.Keys <= IdsOf(mods)
      && s.moved <= |mods|
      && s.moved + CountUnmoved(mods[..s.queried], history) == |mods|
      && (s.queried < |mods| ==> !KeepScanning(s.moved, total, level))
      && (forall j :: 0 <= j < s.queried && !Unmoved(mods[j], history) ==> mods[j].id in s.previous)
  {
    var s := ScanAll(mods, total, level, history);
    ScanFromSpec(mods, 0, |mods|, map[], total, level, history);
    ScanFromRecords(mods, 0, |mods|, map[], total, level, history);
    assert mods[0..s.queried] == mods[..s.queried];
  }

  /** The current coordinates of a referenced node: its snapshot when the
      changeset touched it, otherwise the API's latest version. */
  function CurrentPosition(r: int, nodes: map<int, Node>, latest: int -> Option<Coord>): Option<Coord>
  {
    if r in nodes then Some(nodes[r].Position()) else latest(r)
  }

  /** The references whose current coordinates are known, in way order. */
  function Located(refs: seq<int>, nodes: map<int, Node>, latest: int -> Option<Coord>): (kept: seq<int>)
  {
    if refs == [] then []
    else
      var front, last := refs[..|refs| - 1], refs[|refs| - 1];
      Located(front, nodes, latest) + (if CurrentPosition(last, nodes, latest).Some? then [last] else [])
  }

  /** The located references are references of the way with known
      coordinates, and all of them when every coordinate is known. */
  lemma {:induction false} LocatedSpec(refs: seq<int>, nodes: map<int, Node>, latest: int -> Option<Coord>)
    ensures var kept := Located(refs, nodes, latest);
      && |kept| <= |refs|
      && (forall k :: 0 <= k < |kept| ==> kept[k] in refs && CurrentPosition(kept[k], nodes, latest).Some?)
      && ((forall r :: r in refs ==> CurrentPosition(r, nodes, latest).Some?) ==> kept == refs)
  {
    if refs != [] {
      var front, last := refs[..|refs| - 1], refs[|refs| - 1];
      assert refs == front + [last];
      LocatedSpec(front, nodes, latest);
    }
  }

  /** The old and new shapes of the way, point for point: the new shape uses
      the current coordinates, the old shape the recorded previous coordinates
      of moved nodes and the current ones elsewhere. */
  function Rebuild(refs: seq<int>, nodes: map<int, Node>, latest: int -> Option<Coord>,
                   previous: map<int, Coord>): (shapes: (seq<Coord>, seq<Coord>))
    requires previous.Keys <= nodes.Keys
  {
    if refs == [] then ([], [])
    else
      var front, last := refs[..|refs| - 1], refs[|refs| - 1];
      var (olds, news) := Rebuild(front, nodes, latest, previous);
      var current := CurrentPosition(last, nodes, latest);
      var news' := if current.Some? then news + [current.value] else news;
      var olds' := if last in previous then olds + [previous[last]]
                   else if current.Some? then olds + [current.value]
                   else olds;
      (olds', news')
  }

  /** The two shapes run point for point over the located references: the
      new point is the current position, the old point the recorded previous
      position of a moved node and the current one otherwise. */
  lemma {:induction false} RebuildSpec(refs: seq<int>, nodes: map<int, Node>,
                                       latest: int -> Option<Coord>, previous: map<int, Coord>)
    requires previous.Keys <= nodes.Keys
    ensures var kept, shapes := Located(refs, nodes, latest), Rebuild(refs, nodes, latest, previous);
      && |shapes.0| == |kept| && |shapes.1| == |kept|
      && forall k :: 0 <= k < |kept| ==>
           && CurrentPosition(kept[k], nodes, latest).Some?
           && shapes.1[k] == CurrentPosition(kept[k], nodes, latest).value
           && shapes.0[k] == (if kept[k] in previous then previous[kept[k]] else shapes.1[k])
  {
    if refs != [] {
      var front, last := refs[..|refs| - 1], refs[|refs| - 1];
      RebuildSpec(front, nodes, latest, previous);
      var current := CurrentPosition(last, nodes, latest);
      if last in previous {
        assert last in nodes;
      }
    }
  }

  /** `num / den`, or the largest double when the denominator is zero. */
  function Ratio(num: real, den: real): (r: real)
    ensures den == 0.0 ==> r == MaxDouble
    ensures den != 0.0 ==> r * den == num
  {
    if den != 0.0 then num / den else MaxDouble
  }

  /** Both the summed and the worst squared residual shrank by more than the
      threshold factor. */
  predicate RatiosExceed(oldFit: Fit, newFit: Fit, minRate: real)
  {
    && Ratio(oldFit.sumSquares, newFit.sumSquares) > minRate
    && Ratio(oldFit.maxSquare, newFit.maxSquare) > minRate
  }

  /** Where `check_way` stops, and what it found there. */
  datatype Evaluation =
    | TooShort
    | TooFewModified(modified: nat)
    | TooFewMoved(scan: Scan)
    | Compared(scan: Scan, olds: seq<Coord>, news: seq<Coord>, aligned: bool)

  predicate HistoryFor(refs: seq<int>, nodes: map<int, Node>, api: HistoryApi)
  {
    PriorsKnown(ModifiedNodes(refs, nodes), api.nodeVersion)
  }

  function Evaluate(refs: seq<int>, nodes: map<int, Node>, api: HistoryApi,
                    regress: seq<Coord> -> Fit, limits: Limits): (e: Evaluation)
    requires Keyed(nodes) && HistoryFor(refs, nodes, api)
  {
    if |refs| <= limits.minWayNodeNb then TooShort
    else
      var total := |refs|;
      var mods := ModifiedNodes(refs, nodes);
      if !(|mods| == SizeMinusTwo(total) || Rate(|mods|, total) > limits.modifRateMinLevel) then
        TooFewModified(|mods|)
      else
        var s := ScanAll(mods, total, limits.modifRateMinLevel, api.nodeVersion);
        if !KeepScanning(s.moved, total, limits.modifRateMinLevel) then TooFewMoved(s)
        else
          ScanAllSpec(mods, total, limits.modifRateMinLevel, api.nodeVersion);
          ModifiedNodeIds(refs, nodes);
          var (olds, news) := Rebuild(refs, nodes, api.latestNode, s.previous);
          Compared(s, olds, news,
                   RatiosExceed(regress(olds), regress(news), limits.minAlignmentModificationRate))
  }

  /** `check_way`'s verdict. */
  predicate Aligned(refs: seq<int>, nodes: map<int, Node>, api: HistoryApi,
                    regress: seq<Coord> -> Fit, limits: Limits)
    requires Keyed(nodes) && HistoryFor(refs, nodes, api)
  {
    var e := Evaluate(refs, nodes, api, regress, limits);
    e.Compared? && e.aligned
  }

  /** A detection passed every gate of `check_way`: the way is longer than
      the minimum, enough of its nodes were modified (or all but two, the
      closed-ring exception), enough of those moved, and both residual
      ratios exceed the threshold. */
  lemma AlignedGates(refs: seq<int>, nodes: map<int, Node>, api: HistoryApi,
                     regress: seq<Coord> -> Fit, limits: Limits)
    requires Keyed(nodes) && HistoryFor(refs, nodes, api)
    requires Aligned(refs, nodes, api, regress, limits)
    ensures |refs| > limits.minWayNodeNb
    ensures var mods := ModifiedNodes(refs, nodes);
      |mods| == SizeMinusTwo(|refs|) || Rate(|mods|, |refs|) > limits.modifRateMinLevel
    ensures var e := Evaluate(refs, nodes, api, regress, limits);
      && KeepScanning(e.scan.moved, |refs|, limits.modifRateMinLevel)
      && RatiosExceed(regress(e.olds), regress(e.news), limits.minAlignmentModificationRate)
  {
  }

  /** Raising the minimum way size or the minimum ratio never creates a
      detection: a way aligned under the stricter thresholds is aligned under
      the looser ones. */
  lemma StricterLimitsDetectLess(refs: seq<int>, nodes: map<int, Node>, api: HistoryApi,
                                 regress: seq<Coord> -> Fit, loose: Limits, strict: Limits)
    requires Keyed(nodes) && HistoryFor(refs, nodes, api)
    requires strict.modifRateMinLevel == loose.modifRateMinLevel
    requires strict.minAlignmentModificationRate >= loose.minAlignmentModificationRate
    requires strict.minWayNodeNb >= loose.minWayNodeNb
    requires Aligned(refs, nodes, api, regress, strict)
    ensures Aligned(refs, nodes, api, regress, loose)
  {
    var s, l := Evaluate(refs, nodes, api, regress, strict), Evaluate(refs, nodes, api, regress, loose);
    assert s.olds == l.olds && s.news == l.news;
  }
}
