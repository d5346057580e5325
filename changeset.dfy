/** The per-changeset aggregator: node and way snapshots keyed by id, the
    nodes still to check, the ways already checked, and the alignment search
    run when the changeset closes. The thresholds it reads are process-wide. */
module Changesets {
  import opened Osm
  import opened Ordered
  import opened WaySnapshot
  import opened NodeSnapshot
  import opened AlignmentSpec

  const UInt32Modulus: int := 0x1_0000_0000

  /** A `float` converted to `uint32_t`: truncation toward zero, defined only
      when the truncated value is representable. */
  function TruncateToUInt32(r: real): (n: nat)
    requires -1.0 < r < UInt32Modulus as real
    ensures n < UInt32Modulus
    ensures r >= 0.0 ==> n as real <= r < n as real + 1.0
    ensures r < 0.0 ==> n == 0
  {
    if r < 0.0 then 0 else r.Floor
  }

  /** The static thresholds shared by every changeset. */
  class Thresholds {
    var modifRateMinLevel: real
    var minAlignmentModificationRate: real
    var minWayNodeNb: nat

    /** The values the thresholds hold until a setter is called. */
    constructor ()
      ensures GetModifRateMinLevel() == 0.9
      ensures GetMinAlignmentModificationRate() == 100.0
      ensures GetMinWayNodeNb() == 2
    {
      modifRateMinLevel := 0.9;
      minAlignmentModificationRate := 100.0;
      minWayNodeNb := 2;
    }

    function GetModifRateMinLevel(): real
      reads this
    {
      modifRateMinLevel
    }

    function GetMinAlignmentModificationRate(): real
      reads this
    {
      minAlignmentModificationRate
    }

    function GetMinWayNodeNb(): nat
      reads this
    {
      minWayNodeNb
    }

    function Values(): Limits
      reads this
    {
      Limits(modifRateMinLevel, minAlignmentModificationRate, minWayNodeNb)
    }

    method SetModifRateMinLevel(rate: real)
      modifies this`modifRateMinLevel
      ensures GetModifRateMinLevel() == rate
    {
      modifRateMinLevel := rate;
    }

    method SetMinAlignmentModificationRate(rate: real)
      modifies this`minAlignmentModificationRate
      ensures GetMinAlignmentModificationRate() == rate
    {
      minAlignmentModificationRate := rate;
    }

    /** The argument is a float but the field a `uint32_t`: the getter then
        returns the truncated value. */
    method SetMinWayNodeNb(count: real)
      requires -1.0 < count < UInt32Modulus as real
      modifies this`minWayNodeNb
      ensures GetMinWayNodeNb() == TruncateToUInt32(count)
    {
      minWayNodeNb := TruncateToUInt32(count);
    }
  }

  /** What a changeset holds, by id: the stored ways and nodes, the nodes
      still to check and the ways already checked. */
  datatype ChangesetView = ChangesetView(wayIds: set<int>, nodeIds: set<int>,
                                         pending: set<int>, checked: set<int>)

  /** Every entry of `m0` is still in `m1`, unchanged. */
  predicate Extends<K, V(==)>(m1: map<K, V>, m0: map<K, V>)
  {
    forall k :: k in m0 ==> k in m1 && m1[k] == m0[k]
  }

  /** `s` is the snapshot `add` takes of the node `n`. */
  predicate NodeSnapshotOf(s: Node, n: OsmNode)
  {
    && s.id == n.id && s.version == n.version && s.Position() == Coord(n.lat, n.lon)
    && s.userName == n.user && s.userId == n.userId && s.inChangeset
  }

  /** `s` is the snapshot `add` takes of the way `w`: its node references in
      order, not checked yet. */
  predicate WaySnapshotOf(s: Way, w: OsmWay)
    reads s
  {
    && s.id == w.id && s.GetNodeRefs() == w.nodeRefs && !s.IsChecked()
    && s.version == w.version && s.userName == w.user && s.userId == w.userId && s.inChangeset
  }

  /** An element `generic_analyze` can take: a node or a way. */
  predicate Routable(e: Element)
  {
    e.NodeElement? || e.WayElement?
  }

  /** `changeset::add`: a node is stored and queued for checking, a way is
      stored. */
  function Deliver(v: ChangesetView, e: Element): (r: ChangesetView)
    requires Routable(e)
    ensures r.checked == v.checked
    ensures v.pending <= v.nodeIds ==> r.pending <= r.nodeIds
  {
    match e
    case NodeElement(n) => v.(nodeIds := v.nodeIds + {n.id}, pending := v.pending + {n.id})
    case WayElement(w) => v.(wayIds := v.wayIds + {w.id})
  }

  /** A way `check_way` found aligned, as reported. */
  datatype Detection = Detection(wayId: int, nodeRefs: seq<int>)

  function SetOf(s: seq<int>): (r: set<int>)
  {
    set x | x in s
  }

  lemma SetOfAppend(s: seq<int>, t: seq<int>)
    ensures SetOf(s + t) == SetOf(s) + SetOf(t)
  {
    forall x | x in SetOf(s + t) ensures x in SetOf(s) + SetOf(t) {
      var j :| 0 <= j < |s + t| && (s + t)[j] == x;
      if j >= |s| { assert t[j - |s|] == x; }
    }
    forall x | x in SetOf(s) + SetOf(t) ensures x in SetOf(s + t) {
      if x in SetOf(s) {
        var j :| 0 <= j < |s| && s[j] == x;
        assert (s + t)[j] == x;
      } else {
        var j :| 0 <= j < |t| && t[j] == x;
        assert (s + t)[|s| + j] == x;
      }
    }
  }

  lemma SetOfAppendTo(base: set<int>, s: seq<int>, t: seq<int>)
    ensures (base + SetOf(s)) + SetOf(t) == base + SetOf(s + t)
  {
    SetOfAppend(s, t);
  }

  predicate Distinct(s: seq<int>)
  {
    forall i, j :: 0 <= i < j < |s| ==> s[i] != s[j]
  }

  /** `s` lists ids none of which is repeated or already in `base`. */
  predicate FreshIds(s: seq<int>, base: set<int>)
  {
    Distinct(s) && forall j :: 0 <= j < |s| ==> s[j] !in base
  }

  lemma FreshAppend(s: seq<int>, t: seq<int>, base: set<int>)
    requires FreshIds(s, base) && FreshIds(t, base + SetOf(s))
    ensures FreshIds(s + t, base)
  {
    forall a, b | 0 <= a < b < |s + t|
      ensures (s + t)[a] != (s + t)[b]
    {
      if a < |s| && b >= |s| {
        assert (s + t)[a] in SetOf(s);
        assert (s + t)[b] == t[b - |s|];
      }
    }
  }


  function WayIds(ws: seq<OsmWay>): set<int>
  {
    set w | w in ws :: w.id
  }

  /** `ws[j]` names a way that was not checked before and that no earlier
      entry of `ws` names: the entries phase 2 actually checks. */
  predicate FirstUnchecked(ws: seq<OsmWay>, j: int, checked: set<int>)
    requires 0 <= j < |ws|
  {
    ws[j].id !in checked + WayIds(ws[..j])
  }

  lemma WayIdsPush(ws: seq<OsmWay>, j: int)
    requires 0 <= j < |ws|
    ensures WayIds(ws[..j + 1]) == WayIds(ws[..j]) + {ws[j].id}
  {
    assert ws[..j + 1] == ws[..j] + [ws[j]];
  }

  /** The pending ids that reporting `ds` takes out: the stored nodes of
      every reported way. */
  function Absorbed(ds: seq<Detection>, nodes: map<int, Node>): (r: set<int>)
  {
    set d, n | d in ds && n in d.nodeRefs && n in nodes :: n
  }

  lemma AbsorbedAppend(a: seq<Detection>, b: seq<Detection>, nodes: map<int, Node>)
    ensures Absorbed(a + b, nodes) == Absorbed(a, nodes) + Absorbed(b, nodes)
  {
    forall n | n in Absorbed(a + b, nodes) ensures n in Absorbed(a, nodes) + Absorbed(b, nodes) {
      var d :| d in a + b && n in d.nodeRefs && n in nodes;
    }
  }

  lemma AbsorbedOne(d: Detection, nodes: map<int, Node>)
    ensures Absorbed([d], nodes) == ModifiedIds(d.nodeRefs, nodes)
  {
    forall n | n in ModifiedIds(d.nodeRefs, nodes) ensures n in Absorbed([d], nodes) {
      assert d in [d];
    }
  }

  lemma AbsorbedStep(base: set<int>, before: set<int>, after: set<int>,
                     ds: seq<Detection>, step: seq<Detection>, nodes: map<int, Node>)
    requires before == base - Absorbed(ds, nodes) && after == before - Absorbed(step, nodes)
    ensures after == base - Absorbed(ds + step, nodes)
  {
    AbsorbedAppend(ds, step, nodes);
  }

  /** Every way the API reports as holding one of `nodes`, smallest node
      first. */
  ghost function ReachableWays(nodes: set<int>, api: HistoryApi): seq<OsmWay>
    decreases |nodes|
  {
    if nodes == {} then []
    else
      var n := MinOf(nodes);
      api.nodeWays(n) + ReachableWays(nodes - {n}, api)
  }

  lemma {:induction false} Reachable(nodes: set<int>, n: int, api: HistoryApi)
    requires n in nodes
    ensures forall w :: w in api.nodeWays(n) ==> w in ReachableWays(nodes, api)
    decreases |nodes|
  {
    var m := MinOf(nodes);
    if n != m {
      Reachable(nodes - {m}, n, api);
    }
  }

  /** How many entries of `ws` name a way outside `checked`. */
  function CountUnchecked(ws: seq<OsmWay>, checked: set<int>): (n: nat)
  {
    if ws == [] then 0
    else (if ws[0].id in checked then 0 else 1) + CountUnchecked(ws[1..], checked)
  }

  /** Checking more ways never raises the count, and checking a way that `ws`
      lists lowers it. */
  lemma {:induction false} CountUncheckedShrinks(ws: seq<OsmWay>, checked0: set<int>,
                                                  checked1: set<int>, way: int)
    requires checked0 <= checked1
    ensures CountUnchecked(ws, checked1) <= CountUnchecked(ws, checked0)
    ensures way in checked1 - checked0 && (exists w :: w in ws && w.id == way) ==>
              CountUnchecked(ws, checked1) < CountUnchecked(ws, checked0)
  {
    if ws != [] {
      CountUncheckedShrinks(ws[1..], checked0, checked1, way);
      if way in checked1 - checked0 && ws[0].id != way {
        if exists w :: w in ws && w.id == way {
          var w :| w in ws && w.id == way;
          assert w in ws[1..];
        }
      }
    }
  }

  /** The way with references `refs` is checked and found not aligned. */
  ghost predicate Rejects(refs: seq<int>, nodes: map<int, Node>, api: HistoryApi,
                          regress: seq<Coord> -> Fit, limits: Limits)
  {
    Keyed(nodes) && HistoryFor(refs, nodes, api) && !Aligned(refs, nodes, api, regress, limits)
  }

  /** Every entry before `n` that a round starting from `base` checks is not
      aligned. */
  ghost predicate RejectedBefore(candidates: seq<OsmWay>, n: int, base: set<int>, nodes: map<int, Node>,
                                 api: HistoryApi, regress: seq<Coord> -> Fit, limits: Limits)
  {
    forall i :: 0 <= i < n && i < |candidates| && FirstUnchecked(candidates, i, base)
                ==> Rejects(candidates[i].nodeRefs, nodes, api, regress, limits)
  }

  /** An aligned entry that a round checks rules out that every entry up to
      `n` past it is not aligned. */
  lemma AlignedEntryNotRejected(candidates: seq<OsmWay>, j: int, n: int, base: set<int>,
                                nodes: map<int, Node>, api: HistoryApi,
                                regress: seq<Coord> -> Fit, limits: Limits)
    requires 0 <= j < n <= |candidates| && FirstUnchecked(candidates, j, base)
    requires Keyed(nodes) && HistoryFor(candidates[j].nodeRefs, nodes, api)
    requires Aligned(candidates[j].nodeRefs, nodes, api, regress, limits)
    ensures !RejectedBefore(candidates, n, base, nodes, api, regress, limits)
  {
  }

  /** What a round that went through the first `stop` entries of `ws`
      tells about the whole list: it reports nothing exactly when every
      entry it checks is not aligned, and otherwise it reports the first
      aligned entry it checks. */
  lemma RoundOutcome(ws: seq<OsmWay>, stop: int, aligned: bool, found: seq<Detection>,
                     base: set<int>, checkedNow: seq<int>, nodes: map<int, Node>,
                     api: HistoryApi, regress: seq<Coord> -> Fit, limits: Limits)
    requires 0 <= stop <= |ws| && (!aligned ==> stop == |ws|)
    requires SetOf(checkedNow) == WayIds(ws[..stop]) - base
    requires RejectedBefore(ws, if aligned then stop - 1 else stop, base, nodes, api, regress, limits)
    requires aligned ==>
               0 < stop && FirstUnchecked(ws, stop - 1, base)
               && found == [Detection(ws[stop - 1].id, ws[stop - 1].nodeRefs)]
               && Keyed(nodes) && HistoryFor(ws[stop - 1].nodeRefs, nodes, api)
               && Aligned(ws[stop - 1].nodeRefs, nodes, api, regress, limits)
    requires !aligned ==> found == []
    ensures found == [] <==> RejectedBefore(ws, |ws|, base, nodes, api, regress, limits)
    ensures found != [] ==>
              exists j :: 0 <= j < |ws| && FirstUnchecked(ws, j, base)
                          && found == [Detection(ws[j].id, ws[j].nodeRefs)]
                          && RejectedBefore(ws, j, base, nodes, api, regress, limits)
    ensures SetOf(checkedNow) <= WayIds(ws)
    ensures found != [] ==> checkedNow != []
  {
    if aligned {
      assert ws[stop - 1] in ws[..stop];
      assert ws[stop - 1].id in SetOf(checkedNow);
      AlignedEntryNotRejected(ws, stop - 1, |ws|, base, nodes, api, regress, limits);
    }
  }

  /** Some entry of `ws` names the way `x` and is not aligned. */
  ghost predicate RejectedIn(x: int, ws: seq<OsmWay>, nodes: map<int, Node>, api: HistoryApi,
                             regress: seq<Coord> -> Fit, limits: Limits)
  {
    exists i :: 0 <= i < |ws| && ws[i].id == x && Rejects(ws[i].nodeRefs, nodes, api, regress, limits)
  }

  /** The way `x` that phase 2 checked is accounted for: it is reported, or
      an entry naming it in the API list of one of the `pending` nodes is
      not aligned. */
  ghost predicate Settled(x: int, detected: seq<Detection>, pending: set<int>, nodes: map<int, Node>,
                          api: HistoryApi, regress: seq<Coord> -> Fit, limits: Limits)
  {
    (exists d :: d in detected && d.wayId == x)
    || exists n :: n in pending && RejectedIn(x, api.nodeWays(n), nodes, api, regress, limits)
  }

  /** The first entry of `ws[..n]` that names the way `x`. */
  lemma {:induction false} FirstNaming(ws: seq<OsmWay>, n: int, x: int) returns (i: int)
    requires 0 <= n <= |ws| && x in WayIds(ws[..n])
    ensures 0 <= i < n && ws[i].id == x && x !in WayIds(ws[..i])
  {
    var w :| w in ws[..n] && w.id == x;
    WayIdsPush(ws, n - 1);
    if x in WayIds(ws[..n - 1]) {
      i := FirstNaming(ws, n - 1, x);
    } else {
      i := n - 1;
    }
  }

  /** Every way a round checks is the way it reports or an entry that is not
      aligned, and the way it reports is one it checks. */
  lemma RoundSettles(ws: seq<OsmWay>, stop: int, aligned: bool, found: seq<Detection>,
                     base: set<int>, checkedNow: seq<int>, nodes: map<int, Node>,
                     api: HistoryApi, regress: seq<Coord> -> Fit, limits: Limits)
    requires 0 <= stop <= |ws|
    requires SetOf(checkedNow) == WayIds(ws[..stop]) - base
    requires RejectedBefore(ws, if aligned then stop - 1 else stop, base, nodes, api, regress, limits)
    requires aligned ==>
               0 < stop && FirstUnchecked(ws, stop - 1, base)
               && found == [Detection(ws[stop - 1].id, ws[stop - 1].nodeRefs)]
    requires !aligned ==> found == []
    ensures forall x :: x in SetOf(checkedNow) ==>
              (exists d :: d in found && d.wayId == x) || RejectedIn(x, ws, nodes, api, regress, limits)
    ensures forall d :: d in found ==> d.wayId in SetOf(checkedNow)
  {
    forall x | x in SetOf(checkedNow)
      ensures (exists d :: d in found && d.wayId == x) || RejectedIn(x, ws, nodes, api, regress, limits)
    {
      var i := FirstNaming(ws, stop, x);
      assert FirstUnchecked(ws, i, base);
      if aligned && i == stop - 1 {
        assert found[0] in found;
      } else {
        assert Rejects(ws[i].nodeRefs, nodes, api, regress, limits);
      }
    }
    if aligned {
      assert ws[stop - 1] in ws[..stop];
    }
  }

  /** One round of phase 2 either retires its node or checks a way the
      round's candidates list; either way the measure of the phase-2 loop
      drops. */
  lemma RoundShrinks(reachable: seq<OsmWay>, candidates: seq<OsmWay>,
                     pending0: set<int>, pending1: set<int>, checked0: set<int>,
                     checked1: set<int>, nodeId: int, checkedNow: seq<int>)
    requires forall w :: w in candidates ==> w in reachable
    requires checked1 == checked0 + SetOf(checkedNow) && FreshIds(checkedNow, checked0)
    requires SetOf(checkedNow) <= WayIds(candidates) + checked0
    requires pending1 <= pending0 && nodeId in pending0
    requires checkedNow == [] ==> nodeId !in pending1
    ensures |pending1| + CountUnchecked(reachable, checked1)
            < |pending0| + CountUnchecked(reachable, checked0)
  {
    var way := if checkedNow == [] then 0 else checkedNow[0];
    if checkedNow != [] {
      assert way in SetOf(checkedNow) && way !in checked0;
      var w :| w in candidates && w.id == way;
      assert w in reachable;
    }
    CountUncheckedShrinks(reachable, checked0, checked1, way);
    SubsetCard(pending1, pending0);
  }

  /** The first loop of `check_way`: the snapshots of the way's nodes that
      the changeset touched, in way order. */
  method CollectModified(refs: seq<int>, nodes: map<int, Node>) returns (mods: seq<Node>)
    ensures mods == ModifiedNodes(refs, nodes)
  {
    mods := [];
    for i := 0 to |refs|
      invariant mods == ModifiedNodes(refs[..i], nodes)
    {
      assert refs[..i + 1][..i] == refs[..i];
      if refs[i] in nodes {
        mods := mods + [nodes[refs[i]]];
      }
    }
    assert refs[..|refs|] == refs;
  }

  /** The moved-node loop of `check_way`: one history lookup per touched node
      until the way can no longer qualify. */
  method CountMoved(mods: seq<Node>, total: nat, level: real,
                    history: (int, int) -> Option<Coord>) returns (moved: nat, previous: map<int, Coord>)
    requires total > 0 && PriorsKnown(mods, history)
    ensures var s := ScanAll(mods, total, level, history);
      moved == s.moved && previous == s.previous
  {
    moved := |mods|;
    var modifRate := Rate(moved, total);
    previous := map[];
    var i := 0;
    while i < |mods| && (modifRate > level || moved >= SizeMinusTwo(total))
      invariant i <= |mods| && |mods| - i <= moved
      invariant modifRate == Rate(moved, total)
      invariant ScanFrom(mods, i, moved, previous, total, level, history)
                == ScanAll(mods, total, level, history)
      decreases |mods| - i
    {
      ghost var goal := ScanAll(mods, total, level, history);
      assert KeepScanning(moved, total, level);
      var n := mods[i];
      var prior := history(n.id, n.version - 1);
      if prior.value == n.Position() {
        assert ScanFrom(mods, i + 1, moved - 1, previous, total, level, history) == goal;
        moved := moved - 1;
        modifRate := Rate(moved, total);
      } else {
        ghost var next := if n.id in previous then previous else previous[n.id := prior.value];
        assert PriorOf(n, history).value != n.Position();
        assert ScanFrom(mods, i, moved, previous, total, level, history)
            == ScanFrom(mods, i + 1, moved, next, total, level, history);
        if n.id !in previous {
          previous := previous[n.id := prior.value];
        }
      }
      i := i + 1;
    }
  }

  /** The reconstruction loop of `check_way`: the old and new shapes of the
      whole way. */
  method RebuildShapes(refs: seq<int>, nodes: map<int, Node>, latest: int -> Option<Coord>,
                       previous: map<int, Coord>) returns (olds: seq<Coord>, news: seq<Coord>)
    requires previous.Keys <= nodes.Keys
    ensures (olds, news) == Rebuild(refs, nodes, latest, previous)
  {
    olds, news := [], [];
    for j := 0 to |refs|
      invariant (olds, news) == Rebuild(refs[..j], nodes, latest, previous)
    {
      assert refs[..j + 1][..j] == refs[..j];
      var current: Option<Coord>;
      if refs[j] in nodes {
        current := Some(nodes[refs[j]].Position());
      } else {
        current := latest(refs[j]);
      }
      if current.Some? {
        news := news + [current.value];
      }
      if refs[j] in previous {
        olds := olds + [previous[refs[j]]];
      } else if current.Some? {
        olds := olds + [current.value];
      }
    }
    assert refs[..|refs|] == refs;
  }

  class Changeset {
    const id: int
    const userName: string
    const userId: int
    var ways: map<int, Way>
    var nodes: map<int, Node>
    var nodesToCheck: set<int>
    var checkedWays: set<int>

    /** Snapshots are keyed by their own ids, and every pending node has a
        snapshot (so looking a pending id up in `nodes` always succeeds). */
    ghost predicate Valid()
      reads this
    {
      && nodesToCheck <= nodes.Keys
      && Keyed(nodes)
      && forall k :: k in ways ==> ways[k].id == k
    }

    /** The history API knows the previous version of every stored node. */
    ghost predicate HistoryKnown(api: HistoryApi)
      reads this`nodes
    {
      AllPriorsKnown(nodes, api.nodeVersion)
    }

    ghost function View(): ChangesetView
      reads this
    {
      ChangesetView(ways.Keys, nodes.Keys, nodesToCheck, checkedWays)
    }

    /** The node list of every stored way, by way id. */
    ghost function WayRefs(): map<int, seq<int>>
      reads this, ways.Values
    {
      map k | k in ways :: ways[k].nodeRefs
    }

    constructor (id: int, userName: string, userId: int)
      ensures Valid()
      ensures this.id == id && this.userName == userName && this.userId == userId
      ensures ways == map[] && nodes == map[]
      ensures nodesToCheck == {} && checkedWays == {}
    {
      this.id := id;
      this.userName := userName;
      this.userId := userId;
      ways := map[];
      nodes := map[];
      nodesToCheck := {};
      checkedWays := {};
    }

    /** Stores a snapshot of the way unless one with its id is already stored,
        in which case the stored one is kept as it was. */
    method AddWay(w: OsmWay)
      requires Valid()
      modifies this`ways
      ensures Valid()
      ensures ways.Keys == old(ways.Keys) + {w.id}
      ensures forall k :: k in old(ways) ==>
        ways[k] == old(ways[k]) && ways[k].GetNodeRefs() == old(ways[k].GetNodeRefs())
      ensures w.id !in old(ways) ==> fresh(ways[w.id]) && WaySnapshotOf(ways[w.id], w)
      ensures Extends(WayRefs(), old(WayRefs()))
    {
      var snapshot := new Way(w.id, w.user, w.userId, w.version, true);
      if w.id !in ways {
        ways := ways[w.id := snapshot];
      }
      snapshot.SetNodeRefs(w.nodeRefs);
    }

    /** Stores a snapshot of the node unless one with its id is already
        stored, and queues the id for checking in either case. */
    method AddNode(n: OsmNode)
      requires Valid()
      modifies this`nodes, this`nodesToCheck
      ensures Valid()
      ensures nodes.Keys == old(nodes.Keys) + {n.id}
      ensures forall k :: k in old(nodes) ==> nodes[k] == old(nodes[k])
      ensures n.id !in old(nodes) ==> fresh(nodes[n.id]) && NodeSnapshotOf(nodes[n.id], n)
      ensures Extends(nodes, old(nodes)) && WayRefs() == old(WayRefs())
      ensures nodesToCheck == old(nodesToCheck) + {n.id}
    {
      var snapshot := new Node(n.id, n.user, n.userId, n.version, n.lat, n.lon, true);
      if n.id !in nodes {
        nodes := nodes[n.id := snapshot];
      }
      nodesToCheck := nodesToCheck + {n.id};
    }

    /** `add` for a node or a way element: the overload for its kind. */
    method Add(e: Element)
      requires Valid() && Routable(e)
      modifies this`ways, this`nodes, this`nodesToCheck
      ensures Valid()
      ensures View() == Deliver(old(View()), e)
      ensures Extends(nodes, old(nodes)) && Extends(WayRefs(), old(WayRefs()))
      ensures e.NodeElement? && e.node.id !in old(nodes) ==>
                fresh(nodes[e.node.id]) && NodeSnapshotOf(nodes[e.node.id], e.node)
      ensures e.WayElement? && e.way.id !in old(ways) ==>
                fresh(ways[e.way.id]) && WaySnapshotOf(ways[e.way.id], e.way)
    {
      match e {
        case NodeElement(n) => AddNode(n);
        case WayElement(w) => AddWay(w);
      }
    }

    /** The node `nodeId` leaves the pending set. */
    method Retire(nodeId: int)
      requires Valid()
      modifies this`nodesToCheck
      ensures Valid()
      ensures nodesToCheck == old(nodesToCheck) - {nodeId}
    {
      nodesToCheck := nodesToCheck - {nodeId};
    }

    /** The removal loop of `check_way`: each touched node of an aligned way
        leaves the pending set. */
    method ForgetNodes(mods: seq<Node>)
      requires Valid()
      modifies this`nodesToCheck
      ensures Valid()
      ensures nodesToCheck == old(nodesToCheck) - IdsOf(mods)
    {
      for j := 0 to |mods|
        invariant nodesToCheck <= old(nodesToCheck)
        invariant nodesToCheck == old(nodesToCheck) - IdsOf(mods[..j])
      {
        assert IdsOf(mods[..j + 1]) == IdsOf(mods[..j]) + {mods[j].id};
        nodesToCheck := nodesToCheck - {mods[j].id};
      }
      assert mods[..|mods|] == mods;
    }

    /** The alignment heuristic for one way. On a detection the way's touched
        nodes leave the pending set; otherwise nothing changes. `wayId` only
        names the way in the report. */
    method CheckWay(wayId: int, refs: seq<int>, api: HistoryApi,
                    regress: seq<Coord> -> Fit, limits: Thresholds) returns (aligned: bool)
      requires Valid() && HistoryFor(refs, nodes, api)
      modifies this`nodesToCheck
      ensures Valid()
      ensures aligned == Aligned(refs, nodes, api, regress, limits.Values())
      ensures nodesToCheck == if aligned then old(nodesToCheck) - ModifiedIds(refs, nodes)
                              else old(nodesToCheck)
    {
      ghost var e := Evaluate(refs, nodes, api, regress, limits.Values());
      aligned := false;
      var level := limits.modifRateMinLevel;
      if |refs| > limits.minWayNodeNb {
        var total := |refs|;
        var mods := CollectModified(refs, nodes);
        var modifRate := Rate(|mods|, total);
        if |mods| == SizeMinusTwo(total) || modifRate > level {
          var moved, previous := CountMoved(mods, total, level, api.nodeVersion);
          modifRate := Rate(moved, total);
          if modifRate > level || moved >= SizeMinusTwo(total) {
            ScanAllSpec(mods, total, level, api.nodeVersion);
            ModifiedNodeIds(refs, nodes);
            var olds, news := RebuildShapes(refs, nodes, api.latestNode, previous);
            assert e.Compared? && e.olds == olds && e.news == news;
            var oldFit := regress(olds);
            var newFit := regress(news);
            var alignmentRate := Ratio(oldFit.sumSquares, newFit.sumSquares);
            var squareRate := Ratio(oldFit.maxSquare, newFit.maxSquare);
            if alignmentRate > limits.minAlignmentModificationRate
               && squareRate > limits.minAlignmentModificationRate {
              aligned := true;
              ForgetNodes(mods);
              ModifiedNodeIds(refs, nodes);
            }
          } else {
            assert e.TooFewMoved?;
          }
        } else {
          assert e.TooFewModified?;
        }
      } else {
        assert e.TooShort?;
      }
    }

    /** Every reported way is aligned. */
    ghost predicate Reports(detected: seq<Detection>, api: HistoryApi,
                            regress: seq<Coord> -> Fit, limits: Thresholds)
      reads this`nodes, limits
    {
      Keyed(nodes) &&
      forall d :: d in detected ==>
        HistoryFor(d.nodeRefs, nodes, api) && Aligned(d.nodeRefs, nodes, api, regress, limits.Values())
    }

    lemma ReportsAppend(a: seq<Detection>, b: seq<Detection>, api: HistoryApi,
                        regress: seq<Coord> -> Fit, limits: Thresholds)
      requires Reports(a, api, regress, limits) && Reports(b, api, regress, limits)
      ensures Reports(a + b, api, regress, limits)
    {
      forall d | d in a + b
        ensures HistoryFor(d.nodeRefs, nodes, api) && Aligned(d.nodeRefs, nodes, api, regress, limits.Values())
      {
        if d in a {} else {}
      }
    }

    /** Every aligned way the changeset touched directly is reported. */
    ghost predicate ReportsTouched(detected: seq<Detection>, api: HistoryApi,
                                   regress: seq<Coord> -> Fit, limits: Thresholds)
      reads this`ways, this`nodes, ways.Values, limits
    {
      Keyed(nodes) &&
      forall k :: k in ways && HistoryFor(ways[k].nodeRefs, nodes, api)
                  && Aligned(ways[k].nodeRefs, nodes, api, regress, limits.Values())
                  ==> Detection(k, ways[k].nodeRefs) in detected
    }

    /** The detections phase 1 produces when it visits the stored ways in
        the order `ids`: the aligned ones, in that order. */
    ghost function TouchedDetections(ids: seq<int>, api: HistoryApi,
                                     regress: seq<Coord> -> Fit, limits: Thresholds): seq<Detection>
      requires Keyed(nodes) && HistoryKnown(api)
      reads this`ways, this`nodes, ways.Values, limits
    {
      if ids == [] then []
      else
        var k := ids[|ids| - 1];
        TouchedDetections(ids[..|ids| - 1], api, regress, limits)
        + if k in ways && (HistoryCovers(ways[k].nodeRefs, nodes, api.nodeVersion);
                           Aligned(ways[k].nodeRefs, nodes, api, regress, limits.Values()))
          then [Detection(k, ways[k].nodeRefs)] else []
    }

    /** Visiting one more way appends its detection when it is aligned. */
    lemma TouchedDetectionsAppend(ids: seq<int>, k: int, api: HistoryApi,
                                  regress: seq<Coord> -> Fit, limits: Thresholds)
      requires Keyed(nodes) && HistoryKnown(api) && k in ways
      requires HistoryFor(ways[k].nodeRefs, nodes, api)
      ensures TouchedDetections(ids + [k], api, regress, limits)
              == TouchedDetections(ids, api, regress, limits)
                 + if Aligned(ways[k].nodeRefs, nodes, api, regress, limits.Values())
                   then [Detection(k, ways[k].nodeRefs)] else []
    {
      assert (ids + [k])[..|ids|] == ids;
    }

    /** Phase 1 reports only aligned ways, and every aligned way it visits. */
    lemma {:induction false} TouchedDetectionsSpec(ids: seq<int>, api: HistoryApi,
                                                   regress: seq<Coord> -> Fit, limits: Thresholds)
      requires Keyed(nodes) && HistoryKnown(api)
      ensures Reports(TouchedDetections(ids, api, regress, limits), api, regress, limits)
      ensures forall k :: k in ids && k in ways && HistoryFor(ways[k].nodeRefs, nodes, api)
                          && Aligned(ways[k].nodeRefs, nodes, api, regress, limits.Values())
                          ==> Detection(k, ways[k].nodeRefs) in TouchedDetections(ids, api, regress, limits)
    {
      if ids != [] {
        var front, k := ids[..|ids| - 1], ids[|ids| - 1];
        TouchedDetectionsSpec(front, api, regress, limits);
        var prefix := TouchedDetections(front, api, regress, limits);
        var all := TouchedDetections(ids, api, regress, limits);
        if k in ways {
          HistoryCovers(ways[k].nodeRefs, nodes, api.nodeVersion);
        }
        var step := if k in ways && Aligned(ways[k].nodeRefs, nodes, api, regress, limits.Values())
                    then [Detection(k, ways[k].nodeRefs)] else [];
        assert all == prefix + step;
        ReportsAppend(prefix, step, api, regress, limits);
        assert ids == front + [k];
      }
    }

    /** Phase 1 of `search_aligned_ways`: every way touched directly, in id
        order. These ways are not marked checked; the stored nodes of each
        aligned one leave the pending set. */
    method CheckTouchedWays(api: HistoryApi, regress: seq<Coord> -> Fit, limits: Thresholds)
      returns (detected: seq<Detection>, ghost order: seq<int>)
      requires Valid() && HistoryKnown(api)
      modifies this`nodesToCheck
      ensures Valid()
      ensures StrictlyIncreasing(order) && forall k :: k in order <==> k in ways
      ensures detected == TouchedDetections(order, api, regress, limits)
      ensures nodesToCheck == old(nodesToCheck) - Absorbed(detected, nodes)
    {
      detected := [];
      var wayIds := SortedIds(ways.Keys);
      order := wayIds;
      for i := 0 to |wayIds|
        invariant Valid()
        invariant HistoryKnown(api)
        invariant detected == TouchedDetections(wayIds[..i], api, regress, limits)
        invariant nodesToCheck == old(nodesToCheck) - Absorbed(detected, nodes)
      {
        assert wayIds[i] in wayIds;
        ghost var pending := nodesToCheck;
        var step := VisitWay(wayIds[..i], wayIds[i], api, regress, limits);
        AbsorbedStep(old(nodesToCheck), pending, nodesToCheck, detected, step, nodes);
        detected := detected + step;
        assert wayIds[..i + 1] == wayIds[..i] + [wayIds[i]];
      }
      assert wayIds[..|wayIds|] == wayIds;
    }

    /** One step of phase 1: checks the stored way `k`; `step` is its
        detection when it is aligned and empty otherwise, and exactly the
        stored nodes of a detected way leave the pending set. */
    method VisitWay(visited: seq<int>, k: int, api: HistoryApi,
                    regress: seq<Coord> -> Fit, limits: Thresholds)
      returns (step: seq<Detection>)
      requires Valid() && HistoryKnown(api) && k in ways
      modifies this`nodesToCheck
      ensures Valid()
      ensures TouchedDetections(visited + [k], api, regress, limits)
              == TouchedDetections(visited, api, regress, limits) + step
      ensures nodesToCheck == old(nodesToCheck) - Absorbed(step, nodes)
    {
      var w := ways[k];
      HistoryCovers(w.nodeRefs, nodes, api.nodeVersion);
      TouchedDetectionsAppend(visited, k, api, regress, limits);
      var aligned := CheckWay(w.id, w.nodeRefs, api, regress, limits);
      if aligned {
        step := [Detection(w.id, w.nodeRefs)];
        AbsorbedOne(step[0], nodes);
      } else {
        step := [];
        assert Absorbed(step, nodes) == {};
      }
    }

    /** The entry `candidates[j]` of a round that has found nothing aligned
        yet: it is checked and marked checked when it is the first entry
        naming a way outside `base`, and skipped otherwise. */
    method CheckCandidate(candidates: seq<OsmWay>, j: nat, api: HistoryApi,
                          regress: seq<Coord> -> Fit, limits: Thresholds,
                          ghost base: set<int>, ghost checkedNow: seq<int>)
      returns (aligned: bool, found: seq<Detection>, ghost checkedNow': seq<int>)
      requires Valid() && HistoryKnown(api) && j < |candidates|
      requires checkedWays == base + WayIds(candidates[..j])
      requires FreshIds(checkedNow, base) && SetOf(checkedNow) == WayIds(candidates[..j]) - base
      requires RejectedBefore(candidates, j, base, nodes, api, regress, limits.Values())
      modifies this`nodesToCheck, this`checkedWays
      ensures Valid()
      ensures RejectedBefore(candidates, if aligned then j else j + 1, base, nodes, api, regress,
                             limits.Values())
      ensures checkedWays == base + WayIds(candidates[..j + 1])
      ensures FreshIds(checkedNow', base) && SetOf(checkedNow') == WayIds(candidates[..j + 1]) - base
      ensures !aligned ==>
                found == [] && nodesToCheck == old(nodesToCheck)
                && (FirstUnchecked(candidates, j, base) ==>
                      Rejects(candidates[j].nodeRefs, nodes, api, regress, limits.Values()))
      ensures aligned ==>
                FirstUnchecked(candidates, j, base)
                && found == [Detection(candidates[j].id, candidates[j].nodeRefs)]
                && Reports(found, api, regress, limits)
                && nodesToCheck == old(nodesToCheck) - Absorbed(found, nodes)
    {
      var candidate := candidates[j];
      WayIdsPush(candidates, j);
      aligned, found, checkedNow' := false, [], checkedNow;
      if candidate.id !in checkedWays {
        HistoryCovers(candidate.nodeRefs, nodes, api.nodeVersion);
        aligned := CheckWay(candidate.id, candidate.nodeRefs, api, regress, limits);
        SetOfAppend(checkedNow, [candidate.id]);
        assert SetOf([candidate.id]) == {candidate.id} by {
          assert [candidate.id][0] == candidate.id;
        }
        checkedWays := checkedWays + {candidate.id};
        checkedNow' := checkedNow + [candidate.id];
        if aligned {
          found := [Detection(candidate.id, candidate.nodeRefs)];
          AbsorbedOne(found[0], nodes);
        }
      }
    }

    /** One round of phase 2: the ways holding a pending node, in the API's
        order. An entry is checked only when its way is not yet checked and
        no earlier entry names it; the round stops after the first aligned
        one. `stop` is how many entries the round went through. */
    method CheckCandidates(candidates: seq<OsmWay>, api: HistoryApi,
                           regress: seq<Coord> -> Fit, limits: Thresholds)
      returns (aligned: bool, found: seq<Detection>, ghost checkedNow: seq<int>, ghost stop: nat)
      requires Valid() && HistoryKnown(api)
      modifies this`nodesToCheck, this`checkedWays
      ensures Valid()
      ensures stop <= |candidates| && (!aligned ==> stop == |candidates|)
      ensures checkedWays == old(checkedWays) + WayIds(candidates[..stop])
      ensures !aligned ==> WayIds(candidates) <= checkedWays
      ensures FreshIds(checkedNow, old(checkedWays))
      ensures SetOf(checkedNow) == WayIds(candidates[..stop]) - old(checkedWays)
      ensures RejectedBefore(candidates, if aligned then stop - 1 else stop, old(checkedWays),
                             nodes, api, regress, limits.Values())
      ensures aligned ==>
                0 < stop && FirstUnchecked(candidates, stop - 1, old(checkedWays))
                && found == [Detection(candidates[stop - 1].id, candidates[stop - 1].nodeRefs)]
      ensures !aligned ==> found == []
      ensures Reports(found, api, regress, limits)
      ensures nodesToCheck == old(nodesToCheck) - Absorbed(found, nodes)
    {
      aligned := false;
      found := [];
      checkedNow := [];
      assert Absorbed(found, nodes) == {};
      var j := 0;
      while j < |candidates| && !aligned
        invariant j <= |candidates|
        invariant Valid()
        invariant checkedWays == old(checkedWays) + WayIds(candidates[..j])
        invariant FreshIds(checkedNow, old(checkedWays))
        invariant SetOf(checkedNow) == WayIds(candidates[..j]) - old(checkedWays)
        invariant RejectedBefore(candidates, if aligned then j - 1 else j, old(checkedWays),
                                 nodes, api, regress, limits.Values())
        invariant aligned ==> 0 < j && FirstUnchecked(candidates, j - 1, old(checkedWays))
        invariant found == if aligned then [Detection(candidates[j - 1].id, candidates[j - 1].nodeRefs)]
                           else []
        invariant Reports(found, api, regress, limits)
        invariant nodesToCheck == old(nodesToCheck) - Absorbed(found, nodes)
      {
        aligned, found, checkedNow := CheckCandidate(candidates, j, api, regress, limits,
                                                     old(checkedWays), checkedNow);
        j := j + 1;
      }
      stop := j;
      assert candidates[..|candidates|] == candidates;
    }

    /** The body of phase 2 for the pending node `nodeId`: its candidate ways
        are checked; nothing is reported exactly when every candidate the
        round checks is not aligned, and then the node is retired. */
    method CheckPendingNode(nodeId: int, api: HistoryApi, regress: seq<Coord> -> Fit,
                            limits: Thresholds, ghost reachable: seq<OsmWay>)
      returns (found: seq<Detection>, ghost checkedNow: seq<int>)
      requires Valid() && HistoryKnown(api) && nodeId in nodesToCheck
      requires forall w :: w in api.nodeWays(nodeId) ==> w in reachable
      modifies this`nodesToCheck, this`checkedWays
      ensures Valid()
      ensures nodesToCheck == old(nodesToCheck) - Absorbed(found, nodes)
                              - (if found == [] then {nodeId} else {})
      ensures found == [] ==> WayIds(api.nodeWays(nodeId)) <= checkedWays
      ensures var ws := api.nodeWays(nodeId);
        found == [] <==>
          RejectedBefore(ws, |ws|, old(checkedWays), nodes, api, regress, limits.Values())
      ensures var ws := api.nodeWays(nodeId);
        found != [] ==>
          exists j :: 0 <= j < |ws| && FirstUnchecked(ws, j, old(checkedWays))
                      && found == [Detection(ws[j].id, ws[j].nodeRefs)]
                      && RejectedBefore(ws, j, old(checkedWays), nodes, api, regress, limits.Values())
                      && checkedWays == old(checkedWays) + WayIds(ws[..j + 1])
      ensures Reports(found, api, regress, limits)
      ensures forall x :: x in SetOf(checkedNow) ==>
                (exists d :: d in found && d.wayId == x)
                || RejectedIn(x, api.nodeWays(nodeId), nodes, api, regress, limits.Values())
      ensures forall d :: d in found ==> d.wayId in SetOf(checkedNow)
      ensures FreshIds(checkedNow, old(checkedWays))
      ensures checkedWays == old(checkedWays) + SetOf(checkedNow)
      ensures SetOf(checkedNow) <= WayIds(api.nodeWays(nodeId))
      ensures |nodesToCheck| + CountUnchecked(reachable, checkedWays)
              < |old(nodesToCheck)| + CountUnchecked(reachable, old(checkedWays))
    {
      ghost var pending0, checked0 := nodesToCheck, checkedWays;
      var candidates := api.nodeWays(nodes[nodeId].id);
      assert candidates == api.nodeWays(nodeId);
      var aligned;
      ghost var stop;
      aligned, found, checkedNow, stop := CheckCandidates(candidates, api, regress, limits);
      if aligned {
        assert found[0] in found;
      }
      RoundOutcome(candidates, stop, aligned, found, checked0, checkedNow, nodes, api, regress,
                   limits.Values());
      RoundSettles(candidates, stop, aligned, found, checked0, checkedNow, nodes, api, regress,
                   limits.Values());
      if aligned {
        assert candidates[..stop - 1 + 1] == candidates[..stop];
      }
      if !aligned {
        Retire(nodeId);
      }
      RoundShrinks(reachable, candidates, pending0, nodesToCheck, checked0, checkedWays,
                   nodeId, checkedNow);
    }

    /** The state phase 2 keeps: the changeset stays valid, the ways it has
        checked are fresh and distinct and are exactly the ones added to the
        checked set, every detection so far is aligned and names a way it
        checked, every way it checked is reported or was found not aligned,
        and every node it has retired either is a stored node of a reported
        way or has all its API ways checked. */
    ghost predicate PhaseTwo(checkedNow: seq<int>, detected: seq<Detection>, base: set<int>,
                             pending: set<int>, api: HistoryApi,
                             regress: seq<Coord> -> Fit, limits: Thresholds)
      reads this, limits
    {
      && Valid() && HistoryKnown(api)
      && FreshIds(checkedNow, base) && checkedWays == base + SetOf(checkedNow)
      && Reports(detected, api, regress, limits)
      && (forall d :: d in detected ==> d.wayId in SetOf(checkedNow))
      && (forall x :: x in SetOf(checkedNow) ==>
            Settled(x, detected, pending, nodes, api, regress, limits.Values()))
      && nodesToCheck <= pending
      && forall n :: n in pending - nodesToCheck ==>
           n in Absorbed(detected, nodes) || WayIds(api.nodeWays(n)) <= checkedWays
    }

    lemma PhaseTwoStep(checkedNow: seq<int>, round: seq<int>, detected: seq<Detection>,
                       found: seq<Detection>, base: set<int>, pending: set<int>,
                       pending0: set<int>, checked0: set<int>, nodeId: int,
                       api: HistoryApi, regress: seq<Coord> -> Fit, limits: Thresholds)
      requires Valid() && HistoryKnown(api)
      requires FreshIds(checkedNow, base) && checkedWays == (base + SetOf(checkedNow)) + SetOf(round)
      requires checked0 == base + SetOf(checkedNow)
      requires FreshIds(round, base + SetOf(checkedNow))
      requires Reports(detected, api, regress, limits) && Reports(found, api, regress, limits)
      requires forall d :: d in detected ==> d.wayId in SetOf(checkedNow)
      requires forall d :: d in found ==> d.wayId in SetOf(round)
      requires forall x :: x in SetOf(checkedNow) ==>
                 Settled(x, detected, pending, nodes, api, regress, limits.Values())
      requires forall x :: x in SetOf(round) ==>
                 (exists d :: d in found && d.wayId == x)
                 || RejectedIn(x, api.nodeWays(nodeId), nodes, api, regress, limits.Values())
      requires nodeId in pending0 && pending0 <= pending
      requires forall n :: n in pending - pending0 ==>
                 n in Absorbed(detected, nodes) || WayIds(api.nodeWays(n)) <= checked0
      requires nodesToCheck == pending0 - Absorbed(found, nodes) - (if found == [] then {nodeId} else {})
      requires found == [] ==> WayIds(api.nodeWays(nodeId)) <= checkedWays
      ensures PhaseTwo(checkedNow + round, detected + found, base, pending, api, regress, limits)
    {
      ReportsAppend(detected, found, api, regress, limits);
      SetOfAppendTo(base, checkedNow, round);
      SetOfAppend(checkedNow, round);
      FreshAppend(checkedNow, round, base);
      AbsorbedAppend(detected, found, nodes);
      var all := detected + found;
      forall x | x in SetOf(checkedNow + round)
        ensures Settled(x, all, pending, nodes, api, regress, limits.Values())
      {
        if x in SetOf(checkedNow) {
          if exists d :: d in detected && d.wayId == x {
            var d :| d in detected && d.wayId == x;
            assert d in all;
          }
        } else if exists d :: d in found && d.wayId == x {
          var d :| d in found && d.wayId == x;
          assert d in all;
        } else {
          assert RejectedIn(x, api.nodeWays(nodeId), nodes, api, regress, limits.Values());
        }
      }
    }

    /** Phase 2 of `search_aligned_ways`: while a node is pending, the
        smallest one is examined; the ways checked here are marked checked.
        Every node pending at the start ends up either a stored node of a
        reported way or with all the ways the API lists for it checked. */
    method CheckPendingNodes(api: HistoryApi, regress: seq<Coord> -> Fit, limits: Thresholds)
      returns (detected: seq<Detection>, ghost checkedNow: seq<int>)
      requires Valid() && HistoryKnown(api)
      modifies this`nodesToCheck, this`checkedWays
      ensures Valid()
      ensures nodesToCheck == {}
      ensures FreshIds(checkedNow, old(checkedWays))
      ensures checkedWays == old(checkedWays) + SetOf(checkedNow)
      ensures Reports(detected, api, regress, limits)
      ensures forall d :: d in detected ==> d.wayId in SetOf(checkedNow)
      ensures forall x :: x in SetOf(checkedNow) ==>
                Settled(x, detected, old(nodesToCheck), nodes, api, regress, limits.Values())
      ensures forall n :: n in old(nodesToCheck) ==>
                n in Absorbed(detected, nodes) || WayIds(api.nodeWays(n)) <= checkedWays
    {
      detected := [];
      checkedNow := [];
      ghost var reachable := ReachableWays(nodes.Keys, api);
      while nodesToCheck != {}
        invariant PhaseTwo(checkedNow, detected, old(checkedWays), old(nodesToCheck), api, regress, limits)
        decreases |nodesToCheck| + CountUnchecked(reachable, checkedWays)
      {
        MinExists(nodesToCheck);
        var nodeId :| IsMinimum(nodeId, nodesToCheck);
        Reachable(nodes.Keys, nodeId, api);
        ghost var pending0, checked0 := nodesToCheck, checkedWays;
        var found, round := CheckPendingNode(nodeId, api, regress, limits, reachable);
        PhaseTwoStep(checkedNow, round, detected, found, old(checkedWays), old(nodesToCheck),
                     pending0, checked0, nodeId, api, regress, limits);
        detected := detected + found;
        checkedNow := checkedNow + round;
      }
    }

    /** Run when the changeset closes. Phase 1 checks every way the changeset
        touched, without marking it checked; phase 2 takes the smallest pending
        node, checks the not-yet-checked ways the API says hold it until one
        is aligned, marks those ways checked, and retires the node when none
        was aligned. */
    method SearchAlignedWays(api: HistoryApi, regress: seq<Coord> -> Fit, limits: Thresholds)
      returns (detected: seq<Detection>, ghost phase2: seq<int>)
      requires Valid() && HistoryKnown(api)
      modifies this`nodesToCheck, this`checkedWays
      ensures Valid()
      ensures nodesToCheck == {}
      ensures FreshIds(phase2, old(checkedWays))
      ensures checkedWays == old(checkedWays) + SetOf(phase2)
      ensures Reports(detected, api, regress, limits)
      ensures ReportsTouched(detected, api, regress, limits)
      ensures forall x :: x in SetOf(phase2) ==>
                Settled(x, detected, old(nodesToCheck), nodes, api, regress, limits.Values())
      ensures forall n :: n in old(nodesToCheck) ==>
                n in Absorbed(detected, nodes) || WayIds(api.nodeWays(n)) <= checkedWays
    {
      var touched, order := CheckTouchedWays(api, regress, limits);
      TouchedDetectionsSpec(order, api, regress, limits);
      var pending;
      pending, phase2 := CheckPendingNodes(api, regress, limits);
      detected := touched + pending;
      assert forall d :: d in touched ==> d in detected;
      assert forall d :: d in pending ==> d in detected;
      AbsorbedAppend(touched, pending, nodes);
    }
  }
}
