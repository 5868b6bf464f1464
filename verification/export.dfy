/**
 * Export policy: which installed routes one interface may carry (valley-free:
 * everything to a customer, only customer-learned routes to anyone else), and
 * the diff against what was last advertised on it.
 */
module Export {
  import opened Routes
  import opened Metrics
  import opened Selection

  /** A route may be sent over an interface of relation `egress`. */
  predicate Exportable(egress: Relation, route: Route)
    ensures route.learnedFrom == Customer ==> Exportable(egress, route)
  {
    egress == Customer || route.learnedFrom == Customer
  }

  /** What an interface should believe after an export: each exportable
      destination with its current path. */
  function Exported(egress: Relation, best: map<Dest, Route>): (adv: map<Dest, Path>)
    ensures forall d :: d in adv ==> d in best && adv[d] == best[d].path
  {
    map d | d in best && Exportable(egress, best[d]) :: best[d].path
  }

  /** The destinations an export announces: exportable ones that are dirty or
      whose last advertised path differs from the current one. */
  function AnnounceSet(egress: Relation, best: map<Dest, Route>, dirty: set<Dest>, adv: map<Dest, Path>): (a: set<Dest>)
    ensures a <= Exported(egress, best).Keys
    ensures forall d :: d in Exported(egress, best) && d !in dirty && d in adv && adv[d] == best[d].path ==> d !in a
  {
    set d | d in best && Exportable(egress, best[d]) && (d in dirty || d !in adv || adv[d] != best[d].path)
  }

  /** The destinations an export withdraws: advertised ones that are no longer
      installed or no longer exportable. */
  function WithdrawSet(egress: Relation, best: map<Dest, Route>, adv: map<Dest, Path>): (w: set<Dest>)
    ensures w <= adv.Keys
    ensures w !! Exported(egress, best).Keys
  {
    set d | d in adv && (d !in best || !Exportable(egress, best[d]))
  }

  predicate Distinct<T(==)>(s: seq<T>)
  {
    forall i, j :: 0 <= i < j < |s| ==> s[i] != s[j]
  }

  /** The export scan for one interface: walks the installed routes, then the
      advertised ones left over; returns the announcements, the withdrawals
      and the new advertised state. */
  method ExportDiff(egress: Relation, best: map<Dest, Route>, dirty: set<Dest>, adv0: map<Dest, Path>)
    returns (announce: seq<Dest>, withdraw: seq<Dest>, adv: map<Dest, Path>)
    ensures adv == Exported(egress, best)
    ensures forall d :: d in announce <==> d in AnnounceSet(egress, best, dirty, adv0)
    ensures forall d :: d in withdraw <==> d in WithdrawSet(egress, best, adv0)
    ensures Distinct(announce) && Distinct(withdraw)
  {
    var mid, first;
    announce, first, mid := ExportInstalled(egress, best, dirty, adv0);
    withdraw, adv := DropStale(best, first, mid);
    assert adv.Keys == Exported(egress, best).Keys;
  }

  /** The first pass, over the installed routes in an unspecified order:
      announce what is exportable and dirty or changed, withdraw what is no
      longer exportable but was advertised. */
  method ExportInstalled(egress: Relation, best: map<Dest, Route>, dirty: set<Dest>, adv0: map<Dest, Path>)
    returns (announce: seq<Dest>, withdraw: seq<Dest>, adv: map<Dest, Path>)
    ensures forall d :: d in announce <==> d in AnnounceSet(egress, best, dirty, adv0)
    ensures forall d :: d in withdraw <==> d in best && !Exportable(egress, best[d]) && d in adv0
    ensures Distinct(announce) && Distinct(withdraw)
    ensures forall d :: d in best ==> (d in adv <==> Exportable(egress, best[d]))
    ensures forall d :: d in best && d in adv ==> adv[d] == best[d].path
    ensures forall d :: d !in best ==> (d in adv <==> d in adv0) && (d in adv ==> adv[d] == adv0[d])
  {
    announce, withdraw, adv := [], [], adv0;
    var pending := best.Keys;
    while pending != {}
      invariant pending <= best.Keys
      invariant forall d :: d in announce <==>
        d in best && d !in pending && Exportable(egress, best[d]) && (d in dirty || d !in adv0 || adv0[d] != best[d].path)
      invariant forall d :: d in withdraw <==>
        d in best && d !in pending && !Exportable(egress, best[d]) && d in adv0
      invariant Distinct(announce) && Distinct(withdraw)
      invariant forall d :: d in best && d !in pending ==> (d in adv <==> Exportable(egress, best[d]))
      invariant forall d :: d in best && d !in pending && d in adv ==> adv[d] == best[d].path
      invariant forall d :: d !in best || d in pending ==> (d in adv <==> d in adv0) && (d in adv ==> adv[d] == adv0[d])
      decreases |pending|
    {
      var d :| d in pending;
      var route := best[d];
      var last := Get(adv, d);
      if Exportable(egress, route) {
        if d in dirty || last != Some(route.path) {
          announce := announce + [d];
          adv := adv[d := route.path];
        }
      } else if last.Some? {
        withdraw := withdraw + [d];
        adv := adv - {d};
      }
      pending := pending - {d};
    }
  }

  /** The second pass, stale cleanup over the advertised destinations in an
      unspecified order: withdraw and forget those no longer installed. */
  method DropStale(best: map<Dest, Route>, withdraw0: seq<Dest>, adv0: map<Dest, Path>)
    returns (withdraw: seq<Dest>, adv: map<Dest, Path>)
    requires Distinct(withdraw0)
    requires forall d :: d in withdraw0 ==> d in best
    ensures forall d :: d in withdraw <==> d in withdraw0 || (d in adv0 && d !in best)
    ensures Distinct(withdraw)
    ensures forall d :: d in adv <==> d in adv0 && d in best
    ensures forall d :: d in adv ==> adv[d] == adv0[d]
  {
    withdraw, adv := withdraw0, adv0;
    var stale := adv0.Keys;
    while stale != {}
      invariant stale <= adv0.Keys
      invariant forall d :: d in withdraw <==> d in withdraw0 || (d in adv0 && d !in best && d !in stale)
      invariant Distinct(withdraw)
      invariant forall d :: d in adv <==> d in adv0 && (d in best || d in stale)
      invariant forall d :: d in adv ==> adv[d] == adv0[d]
      decreases |stale|
    {
      var d :| d in stale;
      if d !in best {
        withdraw := withdraw + [d];
        adv := adv - {d};
      }
      stale := stale - {d};
    }
  }

  /** Valley-free: a customer is sent every installed route; any other
      interface only routes learned from customers. */
  lemma ValleyFree(egress: Relation, best: map<Dest, Route>)
    ensures egress == Customer ==> Exported(egress, best).Keys == best.Keys
    ensures egress != Customer ==>
      forall d :: d in Exported(egress, best) ==> d in best && best[d].learnedFrom == Customer
    ensures forall d :: d in best && best[d].learnedFrom == Customer ==> d in Exported(egress, best)
  {
  }

  /** Right after an export the interface is in step: a second export with no
      route change withdraws nothing and announces exactly the exportable
      destinations still marked dirty (the dirty set is never cleared). */
  lemma ExportSettles(egress: Relation, best: map<Dest, Route>, dirty: set<Dest>)
    ensures var adv := Exported(egress, best);
      && AnnounceSet(egress, best, dirty, adv) == set d | d in best && Exportable(egress, best[d]) && d in dirty
      && WithdrawSet(egress, best, adv) == {}
  {
    var adv := Exported(egress, best);
    forall d | d in best && Exportable(egress, best[d])
      ensures d in adv && adv[d] == best[d].path
    {
    }
  }

  /** A destination that lost its last route is withdrawn from every
      interface that had advertised it. */
  lemma LostRouteWithdrawn(egress: Relation, best: map<Dest, Route>, adv: map<Dest, Path>, d: Dest)
    requires d in adv && d !in best
    ensures d in WithdrawSet(egress, best, adv) && d !in Exported(egress, best)
  {
  }

  /** The outbound packet: one update per announced destination with its
      current path, one withdrawal per withdrawn destination. */
  datatype Packet = Packet(updates: seq<(Dest, Path)>, withdrawals: seq<Dest>)

  /** No packet when there is nothing to announce or withdraw. */
  function BuildPacket(best: map<Dest, Route>, announce: seq<Dest>, withdraw: seq<Dest>): (p: Option<Packet>)
    requires forall d :: d in announce ==> d in best
    ensures p.None? <==> announce == [] && withdraw == []
    ensures p.Some? ==> p.value.withdrawals == withdraw && |p.value.updates| == |announce|
    ensures p.Some? ==> forall k :: 0 <= k < |announce| ==> p.value.updates[k] == (announce[k], best[announce[k]].path)
  {
    if announce == [] && withdraw == [] then None
    else Some(Packet(seq(|announce|, k requires 0 <= k < |announce| => (announce[k], best[announce[k]].path)), withdraw))
  }
}
