/** The engine driver: one aggregator per open changeset, the changesets
    mentioned in the current batch of changes, the routing of modified nodes
    and ways to their changeset, and the closing of every changeset a whole
    batch went by without mentioning. */
module Analyzers {
  import opened Osm
  import opened Ordered
  import opened NodeSnapshot
  import opened AlignmentSpec
  import opened Changesets

  function ChangesetOf(e: Element): int
    requires Routable(e)
  {
    if e.NodeElement? then e.node.changeset else e.way.changeset
  }

  function UserOf(e: Element): string
    requires Routable(e)
  {
    if e.NodeElement? then e.node.user else e.way.user
  }

  function UserIdOf(e: Element): int
    requires Routable(e)
  {
    if e.NodeElement? then e.node.userId else e.way.userId
  }

  /** The elements `analyze` hands on, in input order: those of the
      modification changes that carry a node or a way. */
  function Routed(changes: seq<Change>): (r: seq<Element>)
    ensures |r| <= |changes|
    ensures forall e :: e in r ==> Routable(e)
  {
    if changes == [] then []
    else
      var c := changes[|changes| - 1];
      Routed(changes[..|changes| - 1])
      + if c.kind == Modification && Routable(c.element) then [c.element] else []
  }

  /** The changesets the elements belong to. */
  function ChangesetIds(es: seq<Element>): (ids: set<int>)
    requires forall e :: e in es ==> Routable(e)
  {
    if es == [] then {} else ChangesetIds(es[..|es| - 1]) + {ChangesetOf(es[|es| - 1])}
  }

  lemma ChangesetIdsAppend(es: seq<Element>, e: Element)
    requires forall x :: x in es ==> Routable(x)
    requires Routable(e)
    ensures ChangesetIds(es + [e]) == ChangesetIds(es) + {ChangesetOf(e)}
  {
    assert (es + [e])[..|es|] == es;
  }

  const EmptyChangeset := ChangesetView({}, {}, {}, {})

  /** The view of changeset `cid` once the elements `es` are routed in
      order: each element of that changeset is delivered to it, the others
      go elsewhere. */
  function DeliverAll(v: ChangesetView, es: seq<Element>, cid: int): (w: ChangesetView)
    requires forall e :: e in es ==> Routable(e)
  {
    if es == [] then v
    else
      var e := es[|es| - 1];
      var w := DeliverAll(v, es[..|es| - 1], cid);
      if ChangesetOf(e) == cid then Deliver(w, e) else w
  }

  lemma DeliverAllAppend(v: ChangesetView, es: seq<Element>, e: Element, cid: int)
    requires forall x :: x in es ==> Routable(x)
    requires Routable(e)
    ensures DeliverAll(v, es + [e], cid)
            == if ChangesetOf(e) == cid then Deliver(DeliverAll(v, es, cid), e)
               else DeliverAll(v, es, cid)
  {
    assert (es + [e])[..|es|] == es;
  }

  /** Routing a batch in two parts routes the first part, then the second:
      elements are handed on in input order. */
  lemma {:induction false} RoutedAppend(a: seq<Change>, b: seq<Change>)
    ensures Routed(a + b) == Routed(a) + Routed(b)
    decreases |b|
  {
    if b == [] {
      assert a + b == a;
    } else {
      var front, c := b[..|b| - 1], b[|b| - 1];
      RoutedAppend(a, front);
      assert (a + b)[..|a + b| - 1] == a + front;
    }
  }

  /** An element is handed on exactly when a modification change carries
      it and it is a node or a way. */
  lemma {:induction false} RoutedMembers(changes: seq<Change>, e: Element)
    ensures e in Routed(changes) <==>
            exists c :: c in changes && c.kind == Modification && c.element == e && Routable(e)
  {
    if changes != [] {
      var front, c := changes[..|changes| - 1], changes[|changes| - 1];
      RoutedMembers(front, e);
      assert changes == front + [c];
      if e in Routed(changes) && e !in Routed(front) {
        assert c in changes;
      }
      if exists x :: x in changes && x.kind == Modification && x.element == e && Routable(e) {
        var x :| x in changes && x.kind == Modification && x.element == e && Routable(e);
        if x != c {
          assert x in front;
        }
      }
    }
  }

  /** A batch without node or way modifications routes nothing. */
  lemma {:induction false} RoutedIgnores(changes: seq<Change>)
    requires forall c :: c in changes ==> c.kind != Modification || !Routable(c.element)
    ensures Routed(changes) == []
  {
    if changes != [] {
      var front := changes[..|changes| - 1];
      assert forall c :: c in front ==> c in changes;
      RoutedIgnores(front);
      assert changes[|changes| - 1] in changes;
    }
  }

  /** The changesets a batch mentions are those of its elements. */
  lemma {:induction false} ChangesetIdsMembers(es: seq<Element>, k: int)
    requires forall e :: e in es ==> Routable(e)
    ensures k in ChangesetIds(es) <==> exists e :: e in es && ChangesetOf(e) == k
  {
    if es != [] {
      var front, last := es[..|es| - 1], es[|es| - 1];
      assert forall e :: e in front ==> e in es;
      ChangesetIdsMembers(front, k);
      assert es == front + [last];
      if exists e :: e in es && ChangesetOf(e) == k {
        var e :| e in es && ChangesetOf(e) == k;
        if e != last {
          assert e in front;
        }
      }
    }
  }

  /** The ids of the nodes, and of the ways, of changeset `cid` among the
      elements. */
  function NodeIdsFor(es: seq<Element>, cid: int): set<int>
  {
    set i | 0 <= i < |es| && es[i].NodeElement? && es[i].node.changeset == cid :: es[i].node.id
  }

  function WayIdsFor(es: seq<Element>, cid: int): set<int>
  {
    set i | 0 <= i < |es| && es[i].WayElement? && es[i].way.changeset == cid :: es[i].way.id
  }

  lemma IdsForAppend(es: seq<Element>, e: Element, cid: int)
    ensures NodeIdsFor(es + [e], cid)
            == NodeIdsFor(es, cid) + if e.NodeElement? && e.node.changeset == cid then {e.node.id} else {}
    ensures WayIdsFor(es + [e], cid)
            == WayIdsFor(es, cid) + if e.WayElement? && e.way.changeset == cid then {e.way.id} else {}
  {
    var all := es + [e];
    forall x | x in NodeIdsFor(all, cid)
      ensures x in NodeIdsFor(es, cid) + if e.NodeElement? && e.node.changeset == cid then {e.node.id} else {}
    {
      var i :| 0 <= i < |all| && all[i].NodeElement? && all[i].node.changeset == cid && all[i].node.id == x;
      if i < |es| {
        assert es[i] == all[i];
      }
    }
    forall x | x in NodeIdsFor(es, cid) ensures x in NodeIdsFor(all, cid) {
      var i :| 0 <= i < |es| && es[i].NodeElement? && es[i].node.changeset == cid && es[i].node.id == x;
      assert all[i] == es[i];
    }
    if e.NodeElement? && e.node.changeset == cid {
      assert all[|es|] == e;
    }
    forall x | x in WayIdsFor(all, cid)
      ensures x in WayIdsFor(es, cid) + if e.WayElement? && e.way.changeset == cid then {e.way.id} else {}
    {
      var i :| 0 <= i < |all| && all[i].WayElement? && all[i].way.changeset == cid && all[i].way.id == x;
      if i < |es| {
        assert es[i] == all[i];
      }
    }
    forall x | x in WayIdsFor(es, cid) ensures x in WayIdsFor(all, cid) {
      var i :| 0 <= i < |es| && es[i].WayElement? && es[i].way.changeset == cid && es[i].way.id == x;
      assert all[i] == es[i];
    }
    if e.WayElement? && e.way.changeset == cid {
      assert all[|es|] == e;
    }
  }

  /** After a batch a changeset holds, besides what it held, exactly the
      nodes and ways of that changeset in the batch; each of those nodes is
      pending, and no way becomes checked. In particular every pending node
      keeps a snapshot. */
  lemma {:induction false} DeliverAllSpec(v: ChangesetView, es: seq<Element>, cid: int)
    requires forall e :: e in es ==> Routable(e)
    ensures var r := DeliverAll(v, es, cid);
      && r.wayIds == v.wayIds + WayIdsFor(es, cid)
      && r.nodeIds == v.nodeIds + NodeIdsFor(es, cid)
      && r.pending == v.pending + NodeIdsFor(es, cid)
      && r.checked == v.checked
      && (v.pending <= v.nodeIds ==> r.pending <= r.nodeIds)
  {
    if es != [] {
      var front, e := es[..|es| - 1], es[|es| - 1];
      assert forall x :: x in front ==> x in es;
      assert e in es;
      DeliverAllSpec(v, front, cid);
      assert es == front + [e];
      DeliverAllStep(v, front, e, cid);
    }
  }

  lemma DeliverAllStep(v: ChangesetView, es: seq<Element>, e: Element, cid: int)
    requires forall x :: x in es ==> Routable(x)
    requires Routable(e)
    requires var r := DeliverAll(v, es, cid);
      && r.wayIds == v.wayIds + WayIdsFor(es, cid)
      && r.nodeIds == v.nodeIds + NodeIdsFor(es, cid)
      && r.pending == v.pending + NodeIdsFor(es, cid)
      && r.checked == v.checked
    ensures var r := DeliverAll(v, es + [e], cid);
      && r.wayIds == v.wayIds + WayIdsFor(es + [e], cid)
      && r.nodeIds == v.nodeIds + NodeIdsFor(es + [e], cid)
      && r.pending == v.pending + NodeIdsFor(es + [e], cid)
      && r.checked == v.checked
  {
    DeliverAllAppend(v, es, e, cid);
    IdsForAppend(es, e, cid);
  }

  /** The detections of one closed changeset. */
  datatype ClosedReport = ClosedReport(changesetId: int, detections: seq<Detection>)

  function ReportIds(rs: seq<ClosedReport>): seq<int>
  {
    if rs == [] then [] else ReportIds(rs[..|rs| - 1]) + [rs[|rs| - 1].changesetId]
  }

  /** What `search_aligned_ways` promises about the detections of a
      changeset with node snapshots `nodes` and ways `wayRefs`: only aligned
      ways are reported, and every aligned way the changeset touched is. */
  ghost predicate Findings(detections: seq<Detection>, nodes: map<int, Node>,
                           wayRefs: map<int, seq<int>>, api: HistoryApi,
                           regress: seq<Coord> -> Fit, limits: Limits)
  {
    && Keyed(nodes)
    && (forall d :: d in detections ==>
          HistoryFor(d.nodeRefs, nodes, api) && Aligned(d.nodeRefs, nodes, api, regress, limits))
    && (forall k :: k in wayRefs && HistoryFor(wayRefs[k], nodes, api)
                    && Aligned(wayRefs[k], nodes, api, regress, limits)
                    ==> Detection(k, wayRefs[k]) in detections)
  }

  class Analyzer {
    var changesets: map<int, Changeset>
    var encountered: set<int>
    /** The aggregators this driver has opened. */
    ghost var Repr: set<Changeset>

    /** Every open changeset is stored under its own id and is valid; in
        particular no two ids share an aggregator. */
    ghost predicate Valid()
      reads this, Repr
    {
      forall k :: k in changesets ==>
        changesets[k] in Repr && changesets[k].id == k && changesets[k].Valid()
    }

    /** What the changeset `k` holds, or nothing when it is not open. */
    ghost function ViewOf(k: int): ChangesetView
      requires Valid()
      reads this, Repr
    {
      if k in changesets then changesets[k].View() else EmptyChangeset
    }

    constructor ()
      ensures Valid()
      ensures changesets == map[] && encountered == {}
    {
      changesets := map[];
      encountered := {};
      Repr := {};
    }

    /** The first half of `generic_analyze`: the changeset `cid` is marked
        encountered, and opened for the given author unless it is open. */
    method Open(cid: int, userName: string, userId: int) returns (cs: Changeset)
      requires Valid()
      modifies this
      ensures Valid() && Repr == old(Repr) + {cs}
      ensures encountered == old(encountered) + {cid}
      ensures changesets == old(changesets)[cid := cs] && cs.id == cid
      ensures cid in old(changesets) ==> cs == old(changesets[cid])
      ensures cid !in old(changesets) ==>
                fresh(cs) && cs.View() == EmptyChangeset
                && cs.userName == userName && cs.userId == userId
    {
      encountered := encountered + {cid};
      if cid in changesets {
        cs := changesets[cid];
      } else {
        cs := new Changeset(cid, userName, userId);
        changesets := changesets[cid := cs];
        Repr := Repr + {cs};
      }
    }

    /** `generic_analyze`: the element's changeset is marked encountered,
        opened with the element's author when it is not open yet and reused
        otherwise, and receives the element; no other changeset changes. */
    method GenericAnalyze(e: Element)
      requires Valid() && Routable(e)
      modifies this, Repr
      ensures Valid() && fresh(Repr - old(Repr))
      ensures encountered == old(encountered) + {ChangesetOf(e)}
      ensures changesets.Keys == old(changesets.Keys) + {ChangesetOf(e)}
      ensures forall k :: ViewOf(k) == if k == ChangesetOf(e) then Deliver(old(ViewOf(k)), e)
                                       else old(ViewOf(k))
      ensures forall k :: k in old(changesets) ==> changesets[k] == old(changesets[k])
      ensures forall k :: k in old(changesets) && k != ChangesetOf(e) ==> unchanged(changesets[k])
      ensures ChangesetOf(e) !in old(changesets) ==>
                changesets[ChangesetOf(e)].userName == UserOf(e)
                && changesets[ChangesetOf(e)].userId == UserIdOf(e)
      ensures var cs := changesets[ChangesetOf(e)];
        ChangesetOf(e) in old(changesets) ==>
          Extends(cs.nodes, old(cs.nodes)) && Extends(cs.WayRefs(), old(cs.WayRefs()))
      ensures var cs := changesets[ChangesetOf(e)];
        e.NodeElement? && e.node.id !in old(ViewOf(ChangesetOf(e))).nodeIds ==>
          e.node.id in cs.nodes && NodeSnapshotOf(cs.nodes[e.node.id], e.node)
      ensures var cs := changesets[ChangesetOf(e)];
        e.WayElement? && e.way.id !in old(ViewOf(ChangesetOf(e))).wayIds ==>
          e.way.id in cs.ways && WaySnapshotOf(cs.ways[e.way.id], e.way)
    {
      var cid := ChangesetOf(e);
      var cs := Open(cid, UserOf(e), UserIdOf(e));
      Feed(cs, e);
    }

    /** The open changeset `cs` of the element receives it; no other
        changeset changes. */
    method Feed(cs: Changeset, e: Element)
      requires Valid() && Routable(e)
      requires ChangesetOf(e) in changesets && changesets[ChangesetOf(e)] == cs
      modifies cs
      ensures Valid()
      ensures forall k :: ViewOf(k) == if k == ChangesetOf(e) then Deliver(old(ViewOf(k)), e)
                                       else old(ViewOf(k))
      ensures Extends(cs.nodes, old(cs.nodes)) && Extends(cs.WayRefs(), old(cs.WayRefs()))
      ensures e.NodeElement? && e.node.id !in old(cs.nodes) ==>
                e.node.id in cs.nodes && NodeSnapshotOf(cs.nodes[e.node.id], e.node)
      ensures e.WayElement? && e.way.id !in old(cs.ways) ==>
                e.way.id in cs.ways && WaySnapshotOf(cs.ways[e.way.id], e.way)
    {
      cs.Add(e);
      forall k | k in changesets && k != ChangesetOf(e)
        ensures changesets[k].View() == old(ViewOf(k))
      {
        assert changesets[k].id != cs.id;
      }
    }

    /** What the driver holds once the elements `routed` have gone to
        `generic_analyze`, starting from the encountered ids `encountered0`,
        the open ids `open0` and the views `views0`. */
    ghost predicate Reached(routed: seq<Element>, encountered0: set<int>, open0: set<int>,
                            views0: map<int, ChangesetView>)
      reads this, Repr
    {
      && Valid()
      && (forall e :: e in routed ==> Routable(e))
      && encountered == encountered0 + ChangesetIds(routed)
      && changesets.Keys == open0 + ChangesetIds(routed)
      && forall k :: ViewOf(k) == DeliverAll(if k in views0 then views0[k] else EmptyChangeset,
                                             routed, k)
    }

    /** One iteration of `analyze`: a modification change that carries a
        node or a way goes to `generic_analyze`, which extends what the
        driver has reached by that element; any other change leaves the
        driver as it was. */
    method AnalyzeChange(c: Change, ghost routed: seq<Element>, ghost encountered0: set<int>,
                         ghost open0: set<int>, ghost views0: map<int, ChangesetView>)
      returns (ghost routed': seq<Element>)
      requires Reached(routed, encountered0, open0, views0)
      requires c.kind == Modification ==> !c.element.InvalidElement?
      modifies this, Repr
      ensures routed' == routed + if c.kind == Modification && Routable(c.element) then [c.element] else []
      ensures Reached(routed', encountered0, open0, views0)
      ensures fresh(Repr - old(Repr))
      ensures forall k :: k in old(changesets) ==> k in changesets && changesets[k] == old(changesets[k])
    {
      if c.kind == Modification && Routable(c.element) {
        var e := c.element;
        routed' := routed + [e];
        label before:
        GenericAnalyze(e);
        forall k
          ensures ViewOf(k) == DeliverAll(if k in views0 then views0[k] else EmptyChangeset, routed', k)
        {
          DeliverAllAppend(if k in views0 then views0[k] else EmptyChangeset, routed, e, k);
        }
        ChangesetIdsAppend(routed, e);
      } else {
        routed' := routed;
        assert routed + [] == routed;
      }
    }

    /** `analyze`: the node and way elements of the modification changes go
        to `generic_analyze` in input order; everything else is ignored. */
    method Analyze(changes: seq<Change>)
      requires Valid()
      requires forall c :: c in changes && c.kind == Modification ==> !c.element.InvalidElement?
      modifies this, Repr
      ensures Valid() && fresh(Repr - old(Repr))
      ensures encountered == old(encountered) + ChangesetIds(Routed(changes))
      ensures changesets.Keys == old(changesets.Keys) + ChangesetIds(Routed(changes))
      ensures forall k :: ViewOf(k) == DeliverAll(old(ViewOf(k)), Routed(changes), k)
      ensures forall k :: k in old(changesets) ==> changesets[k] == old(changesets[k])
    {
      ghost var views0 := map k | k in changesets :: changesets[k].View();
      ghost var routed: seq<Element> := [];
      for i := 0 to |changes|
        invariant routed == Routed(changes[..i])
        invariant Reached(routed, old(encountered), old(changesets.Keys), views0)
        invariant fresh(Repr - old(Repr))
        invariant forall k :: k in old(changesets) ==> changesets[k] == old(changesets[k])
      {
        assert changes[..i + 1][..i] == changes[..i];
        assert changes[i] in changes;
        routed := AnalyzeChange(changes[i], routed, old(encountered), old(changesets.Keys), views0);
      }
      assert changes[..|changes|] == changes;
    }

    /** The first loop of `init`: the open changesets not encountered in the
        batch, in id order. */
    method ClosedChangesets() returns (closed: seq<int>)
      ensures StrictlyIncreasing(closed)
      ensures forall k :: k in closed <==> k in changesets && k !in encountered
    {
      var ids := SortedIds(changesets.Keys);
      closed := [];
      for i := 0 to |ids|
        invariant StrictlyIncreasing(closed)
        invariant forall k :: k in closed <==> k in ids[..i] && k !in encountered
      {
        forall j | 0 <= j < |closed|
          ensures closed[j] < ids[i]
        {
          assert closed[j] in closed;
          var m :| 0 <= m < i && ids[m] == closed[j];
        }
        assert ids[..i + 1] == ids[..i] + [ids[i]];
        if ids[i] !in encountered {
          closed := closed + [ids[i]];
        }
      }
      assert ids[..|ids|] == ids;
    }

    /** One step of the second loop of `init`: the changeset `cid` is
        searched and then deleted. The detections are stated about the
        changeset as it was before the search, which leaves the stored
        snapshots as they were. */
    method CloseChangeset(cid: int, api: HistoryApi, regress: seq<Coord> -> Fit, limits: Thresholds)
      returns (detections: seq<Detection>)
      requires Valid() && cid in changesets && changesets[cid].HistoryKnown(api)
      modifies this`changesets, changesets[cid]
      ensures Valid()
      ensures changesets == old(changesets) - {cid}
      ensures forall k :: k in changesets ==> unchanged(changesets[k])
      ensures old(changesets)[cid].nodesToCheck == {}
      ensures Findings(detections, old(changesets[cid].nodes), old(changesets[cid].WayRefs()),
                       api, regress, limits.Values())
      ensures forall n :: n in old(changesets[cid].nodesToCheck) ==>
                n in Absorbed(detections, old(changesets[cid].nodes))
                || WayIds(api.nodeWays(n)) <= old(changesets)[cid].checkedWays
      ensures forall x :: x in old(changesets)[cid].checkedWays - old(changesets[cid].checkedWays) ==>
                Settled(x, detections, old(changesets[cid].nodesToCheck), old(changesets[cid].nodes),
                        api, regress, limits.Values())
    {
      var cs := changesets[cid];
      assert forall k :: k in changesets && k != cid ==> changesets[k] != cs by {
        forall k | k in changesets && k != cid ensures changesets[k] != cs {
          assert changesets[k].id == k;
        }
      }
      ghost var phase2;
      detections, phase2 := cs.SearchAlignedWays(api, regress, limits);
      changesets := changesets - {cid};
    }

    /** The second loop of `init`: the changesets `closed` are searched and
        deleted in order; every other changeset is left as it was. */
    method CloseAll(closed: seq<int>, api: HistoryApi, regress: seq<Coord> -> Fit, limits: Thresholds)
      returns (reports: seq<ClosedReport>)
      requires Valid() && StrictlyIncreasing(closed)
      requires forall k :: k in closed ==> k in changesets && changesets[k].HistoryKnown(api)
      modifies this`changesets, Repr
      ensures Valid()
      ensures changesets.Keys == old(changesets.Keys) - SetOf(closed)
      ensures forall k :: k in changesets ==> changesets[k] == old(changesets[k]) && unchanged(changesets[k])
      ensures ReportIds(reports) == closed
    {
      reports := [];
      for i := 0 to |closed|
        invariant Valid() && Repr == old(Repr)
        invariant changesets.Keys == old(changesets.Keys) - SetOf(closed[..i])
        invariant forall k :: k in changesets ==> changesets[k] == old(changesets[k]) && unchanged(changesets[k])
        invariant ReportIds(reports) == closed[..i]
      {
        var cid := closed[i];
        assert closed[..i + 1] == closed[..i] + [cid];
        assert cid in changesets by {
          forall j | 0 <= j < i ensures closed[j] != cid { }
          assert cid !in SetOf(closed[..i]);
        }
        assert SetOf(closed[..i + 1]) == SetOf(closed[..i]) + {cid} by {
          SetOfAppend(closed[..i], [cid]);
          assert [cid][0] == cid;
        }
        var detections := CloseChangeset(cid, api, regress, limits);
        reports := reports + [ClosedReport(cid, detections)];
      }
      assert closed[..|closed|] == closed;
    }

    /** `init`: every changeset not encountered in the batch is searched
        once, in id order, and then deleted; the others are left as they
        were, and the encountered set is emptied. */
    method Init(api: HistoryApi, regress: seq<Coord> -> Fit, limits: Thresholds)
      returns (reports: seq<ClosedReport>)
      requires Valid()
      requires forall k :: k in changesets && k !in encountered ==> changesets[k].HistoryKnown(api)
      modifies this, Repr
      ensures Valid()
      ensures encountered == {}
      ensures changesets.Keys == old(changesets.Keys) * old(encountered)
      ensures forall k :: k in changesets ==> changesets[k] == old(changesets[k]) && unchanged(changesets[k])
      ensures StrictlyIncreasing(ReportIds(reports))
      ensures forall k :: k in ReportIds(reports) <==> k in old(changesets) && k !in old(encountered)
    {
      var closed := ClosedChangesets();
      assert SetOf(closed) == changesets.Keys - encountered by {
        forall k ensures k in SetOf(closed) <==> k in changesets && k !in encountered {
          assert k in SetOf(closed) <==> k in closed;
        }
      }
      reports := CloseAll(closed, api, regress, limits);
      encountered := {};
    }
  }
}
