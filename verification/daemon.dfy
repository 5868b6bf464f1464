/**
 * The EGP daemon: its tables as fields, and the entry points that change them
 * (configuration, link-property updates, inbound packets, export), each tied
 * to the pure definitions of the other modules.
 */
module Daemon {
  import opened Routes
  import opened Metrics
  import opened Selection
  import opened Learning
  import opened Export

  /** The installed path for `dest`, if any. */
  function PathAt(best: map<Dest, Route>, dest: Dest): Option<Path>
  {
    if dest in best then Some(best[dest].path) else None
  }

  /** Every destination whose installed path differs between `b0` and `b1`
      is in `dirty`. */
  ghost predicate MarkedChanges(b0: map<Dest, Route>, b1: map<Dest, Route>, dirty: set<Dest>)
  {
    forall d :: PathAt(b1, d) != PathAt(b0, d) ==> d in dirty
  }

  /** Marks of two successive changes cover the change as a whole. */
  lemma DirtyStep(b0: map<Dest, Route>, b1: map<Dest, Route>, b2: map<Dest, Route>,
                  dirty1: set<Dest>, dirty2: set<Dest>)
    requires MarkedChanges(b0, b1, dirty1) && MarkedChanges(b1, b2, dirty2)
    requires dirty1 <= dirty2
    ensures MarkedChanges(b0, b2, dirty2)
  {
  }

  /** A destination newly in `dirty1` (not in `dirty0`) has a different
      installed path in `b1` than in `b0`: nothing is marked without cause. */
  ghost predicate OnlyChangesMarked(b0: map<Dest, Route>, b1: map<Dest, Route>,
                                    dirty0: set<Dest>, dirty1: set<Dest>)
  {
    forall d :: d in dirty1 && d !in dirty0 ==> PathAt(b1, d) != PathAt(b0, d)
  }

  /** `b0` and `b1` install the same paths for every destination in `s`. */
  ghost predicate SamePathsOn(b0: map<Dest, Route>, b1: map<Dest, Route>, s: set<Dest>)
  {
    forall d :: d in s ==> PathAt(b0, d) == PathAt(b1, d)
  }

  /** Maps that agree outside `t` install the same path for `d` outside `t`. */
  lemma PathOutside(b0: map<Dest, Route>, b1: map<Dest, Route>, t: set<Dest>, d: Dest)
    requires b0 - t == b1 - t && d !in t
    ensures PathAt(b0, d) == PathAt(b1, d)
  {
    assert d in b0 <==> d in b0 - t;
    assert d in b1 <==> d in b1 - t;
    if d in b0 {
      assert b0[d] == (b0 - t)[d];
      assert b1[d] == (b1 - t)[d];
    }
  }

  /** Re-selecting `d` alone keeps the other paths in `s` as they were. */
  lemma SamePathsStep(b00: map<Dest, Route>, b0: map<Dest, Route>, b1: map<Dest, Route>,
                      s: set<Dest>, d: Dest)
    requires SamePathsOn(b00, b0, s)
    requires b1 - {d} == b0 - {d}
    ensures SamePathsOn(b00, b1, s - {d})
  {
    forall x | x in s - {d} ensures PathAt(b00, x) == PathAt(b1, x) {
      PathOutside(b1, b0, {d}, x);
    }
  }

  /** A re-selection of `d`, whose path and mark were still the original
      ones, keeps every new mark justified by a changed path. */
  lemma MarkStep(b00: map<Dest, Route>, b0: map<Dest, Route>, b1: map<Dest, Route>,
                 dirty00: set<Dest>, dirty1: set<Dest>, dirty2: set<Dest>, d: Dest)
    requires OnlyChangesMarked(b00, b0, dirty00, dirty1)
    requires OnlyChangesMarked(b0, b1, dirty1, dirty2)
    requires PathAt(b0, d) == PathAt(b00, d)
    requires d in dirty1 ==> d in dirty00
    requires b1 - {d} == b0 - {d}
    ensures OnlyChangesMarked(b00, b1, dirty00, dirty2)
  {
    forall x | x in dirty2 && x !in dirty00 ensures PathAt(b1, x) != PathAt(b00, x) {
      if x != d {
        PathOutside(b1, b0, {d}, x);
      }
    }
  }

  /** Progress of a re-selection pass over the routed destinations `keys`,
      started from `b00` and `dirty0`, with `pending` still to do: every
      destination done is consistent, keeps its route, and is marked exactly
      when its installed path changed; the pending ones are as they were. */
  ghost predicate ReselectProgress(links: Links, received: Received, b00: map<Dest, Route>, b: map<Dest, Route>,
                                   dirty0: set<Dest>, dirty: set<Dest>, keys: set<Dest>, pending: set<Dest>)
  {
    && pending <= keys && b.Keys == keys
    && SelectedExcept(links, received, b, pending)
    && dirty0 <= dirty <= dirty0 + (keys - pending)
    && MarkedChanges(b00, b, dirty)
    && SamePathsOn(b00, b, pending)
    && OnlyChangesMarked(b00, b, dirty0, dirty)
  }

  /** One re-selection of a pending destination `d` that keeps its route
      advances the pass by one destination. */
  lemma ReselectProgressStep(links: Links, received: Received, b00: map<Dest, Route>,
                             b0: map<Dest, Route>, b1: map<Dest, Route>,
                             dirty0: set<Dest>, dirty1: set<Dest>, dirty2: set<Dest>,
                             keys: set<Dest>, pending: set<Dest>, d: Dest)
    requires ReselectProgress(links, received, b00, b0, dirty0, dirty1, keys, pending)
    requires d in pending && d in b1
    requires SelectedIn(links, received, b1, d)
    requires b1 - {d} == b0 - {d}
    requires dirty1 <= dirty2 <= dirty1 + {d}
    requires MarkedChanges(b0, b1, dirty2) && OnlyChangesMarked(b0, b1, dirty1, dirty2)
    ensures ReselectProgress(links, received, b00, b1, dirty0, dirty2, keys, pending - {d})
  {
    KeysStep(b1, b0, d);
    DirtyStep(b00, b0, b1, dirty1, dirty2);
    MarkStep(b00, b0, b1, dirty0, dirty1, dirty2, d);
    SamePathsStep(b00, b0, b1, pending, d);
    ReselectStep(links, received, b0, b1, pending, d);
  }

  /** Progress of a packet scan that started from `b00` and `dirty00` and has
      re-selected `touched` so far: nothing else was installed or marked, and
      a destination is marked exactly when its installed path changed. */
  ghost predicate PacketProgress(b00: map<Dest, Route>, dirty00: set<Dest>,
                                 b: map<Dest, Route>, dirty: set<Dest>, touched: set<Dest>)
  {
    && b - touched == b00 - touched
    && dirty00 <= dirty <= dirty00 + touched
    && MarkedChanges(b00, b, dirty)
    && OnlyChangesMarked(b00, b, dirty00, dirty)
  }

  /** Re-selecting one destination not yet touched advances the scan. */
  lemma PacketProgressStep(b00: map<Dest, Route>, dirty00: set<Dest>, b0: map<Dest, Route>, dirty1: set<Dest>,
                           b1: map<Dest, Route>, dirty2: set<Dest>, touched: set<Dest>, d: Dest)
    requires PacketProgress(b00, dirty00, b0, dirty1, touched) && d !in touched
    requires b1 - {d} == b0 - {d}
    requires dirty1 <= dirty2 <= dirty1 + {d}
    requires MarkedChanges(b0, b1, dirty2) && OnlyChangesMarked(b0, b1, dirty1, dirty2)
    ensures PacketProgress(b00, dirty00, b1, dirty2, touched + {d})
  {
    PathOutside(b0, b00, touched, d);
    MinusStep(b1, b0, b00, touched, d);
    GrowWithin(dirty00, dirty1, dirty2, touched + {d}, d);
    DirtyStep(b00, b0, b1, dirty1, dirty2);
    MarkStep(b00, b0, b1, dirty00, dirty1, dirty2, d);
  }

  /** An interface with a non-empty configured relation takes part in export. */
  predicate Configured(links: Links, iface: Iface)
    ensures Configured(links, iface) ==> iface in links.relations
  {
    iface in links.relations && links.relations[iface] != ""
  }

  /** The neighbor-address-to-interface index of a configuration: every
      address maps back to an interface that has it as neighbor (when two
      interfaces share an address, an unspecified one of them wins). */
  method InvertNeighbours(neighbours: map<Iface, Addr>) returns (inv: map<Addr, Iface>)
    ensures inv.Keys == neighbours.Values
    ensures forall ip :: ip in inv ==> inv[ip] in neighbours && neighbours[inv[ip]] == ip
  {
    inv := map[];
    var pending := neighbours.Keys;
    while pending != {}
      invariant pending <= neighbours.Keys
      invariant forall i :: i in neighbours && i !in pending ==> neighbours[i] in inv
      invariant forall ip :: ip in inv ==> inv[ip] in neighbours && neighbours[inv[ip]] == ip
      decreases |pending|
    {
      var i :| i in pending;
      inv := inv[neighbours[i] := i];
      pending := pending - {i};
    }
    assert inv.Keys == neighbours.Values by {
      forall ip | ip in neighbours.Values ensures ip in inv {
        var i :| i in neighbours && neighbours[i] == ip;
      }
    }
  }

  /** The per-neighbor and per-interface tables of a configuration: an empty
      learned-route table for the neighbor of every interface with a relation,
      and an empty advertised table for every such interface. */
  method InitTables(relations: map<Iface, string>, neighbours: map<Iface, Addr>)
    returns (rec: Received, adv: map<Iface, map<Dest, Path>>)
    requires relations.Keys <= neighbours.Keys
    ensures forall i :: i in relations ==> neighbours[i] in rec
    ensures forall ip :: ip in rec ==> exists i :: i in relations && neighbours[i] == ip
    ensures forall ip :: ip in rec ==> rec[ip] == map[]
    ensures adv.Keys == relations.Keys
    ensures forall i :: i in adv ==> adv[i] == map[]
  {
    rec, adv := map[], map[];
    var pending := relations.Keys;
    while pending != {}
      invariant pending <= relations.Keys
      invariant adv.Keys == relations.Keys - pending
      invariant forall i :: i in adv ==> adv[i] == map[]
      invariant forall i :: i in relations && i !in pending ==> neighbours[i] in rec
      invariant forall ip :: ip in rec ==> exists i :: i in relations && i !in pending && neighbours[i] == ip
      invariant forall ip :: ip in rec ==> rec[ip] == map[]
      decreases |pending|
    {
      var i :| i in pending;
      rec := rec[neighbours[i] := map[]];
      adv := adv[i := map[]];
      pending := pending - {i};
    }
  }

  class EGP {
    /** The local AS number. */
    var asn: ASN
    /** Relations, revenue descriptors and the neighbor index. */
    var links: Links
    /** neighbor address -> destination -> path as stored ([asn] + path). */
    var received: Received
    /** destination -> installed best route. */
    var best: map<Dest, Route>
    /** interface -> destination -> path last advertised on it. */
    var advertised: map<Iface, map<Dest, Path>>
    /** Destinations whose installed route changed; never cleared. */
    var dirty: set<Dest>

    /** Structural invariant. */
    ghost predicate Wf()
      reads this
    {
      && advertised.Keys == links.relations.Keys
      && LoopFree(asn, received)
    }

    /** `dest`'s installed route agrees with the learned routes. */
    ghost predicate Selected(dest: Dest)
      reads this`links, this`received, this`best
    {
      SelectedIn(links, received, best, dest)
    }

    ghost predicate Valid()
      reads this
    {
      Wf() && forall d :: Selected(d)
    }

    /** Configuration of a fresh daemon. Every interface with a relation must
        name a neighbor; each such neighbor starts with no learned routes and
        each such interface with nothing advertised. */
    constructor SetParameters(asn: ASN, relations: map<Iface, string>, neighbours: map<Iface, Addr>,
                              linkProperties: Option<map<Iface, string>>)
      requires relations.Keys <= neighbours.Keys
      ensures Valid()
      ensures this.asn == asn && links.relations == relations
      ensures links.revenues == (if linkProperties.Some? then linkProperties.value else map[])
      ensures links.ipToIface.Keys == neighbours.Values
      ensures forall ip :: ip in links.ipToIface ==>
        links.ipToIface[ip] in neighbours && neighbours[links.ipToIface[ip]] == ip
      ensures forall i :: i in relations ==> neighbours[i] in received
      ensures forall ip :: ip in received ==> exists i :: i in relations && neighbours[i] == ip
      ensures forall ip :: ip in received ==> received[ip] == map[]
      ensures advertised.Keys == relations.Keys
      ensures forall i :: i in advertised ==> advertised[i] == map[]
      ensures best == map[] && dirty == {}
    {
      var inv := InvertNeighbours(neighbours);
      var rec, adv := InitTables(relations, neighbours);
      this.asn := asn;
      links := Links(relations, inv, if linkProperties.Some? then linkProperties.value else map[]);
      received := rec;
      best := map[];
      advertised := adv;
      dirty := {};
      new;
      forall d ensures Selected(d) {
        assert !Offered(received, d);
      }
    }

    /** Best-route selection for one destination: installs a best candidate
        when its path differs from the installed one, removes the route when
        no candidate is left, and marks the destination dirty on either
        change; when the installed path is already a best one it does nothing. */
    method SelectBest(dest: Dest)
      modifies this`best, this`dirty
      ensures Selected(dest)
      ensures forall d :: d != dest && old(Selected(d)) ==> Selected(d)
      ensures best - {dest} == old(best) - {dest}
      ensures old(dirty) <= dirty <= old(dirty) + {dest}
      ensures PathAt(best, dest) == PathAt(old(best), dest) ==>
        best == old(best) && dirty == old(dirty)
      ensures PathAt(best, dest) != PathAt(old(best), dest) ==> dirty == old(dirty) + {dest}
      ensures MarkedChanges(old(best), best, dirty)
      ensures OnlyChangesMarked(old(best), best, old(dirty), dirty)
      ensures PathAt(best, dest) != PathAt(old(best), dest) && dest in best ==>
        && IsBest(links, Candidates(received, dest), best[dest].neighbor)
        && best[dest] == RouteOf(links, best[dest].neighbor, received[best[dest].neighbor][dest])
    {
      var winner := ScanCandidates(links, received, dest);
      var current := Get(best, dest);
      if winner.Some? {
        var w := winner.value;
        if current.None? || current.value.path != w.path {
          EditOutside(best, dest, w);
          best := best[dest := w];
          dirty := dirty + {dest};
          assert PathAt(best, dest) != PathAt(old(best), dest);
        }
        InstalledBestSelected(links, received, best, dest, w.neighbor);
      } else {
        if current.Some? {
          EditOutside(best, dest, current.value);
          best := best - {dest};
          dirty := dirty + {dest};
          assert PathAt(best, dest) != PathAt(old(best), dest);
        }
        NoCandidateSelected(links, received, best, dest);
      }
      SelectedOthers(links, received, old(best), best, dest);
    }

    /** Learn one (speaker, destination) entry and re-run selection for it. */
    method Relearn(sp: Addr, dest: Dest, held: map<Dest, Path>)
      requires Valid() && sp in received
      requires held - {dest} == received[sp] - {dest}
      requires dest in held ==> StoredPath(asn, held[dest])
      modifies this`received, this`best, this`dirty
      ensures Valid()
      ensures received == old(received)[sp := held]
      ensures best - {dest} == old(best) - {dest}
      ensures old(dirty) <= dirty <= old(dirty) + {dest}
      ensures MarkedChanges(old(best), best, dirty)
      ensures OnlyChangesMarked(old(best), best, old(dirty), dirty)
      ensures PathAt(best, dest) == PathAt(old(best), dest) ==> best == old(best) && dirty == old(dirty)
    {
      ghost var before := received;
      received := received[sp := held];
      forall ip, d | ip in received && d in received[ip] ensures StoredPath(asn, received[ip][d]) {
        if ip == sp && d != dest {
          assert d in held - {dest};
          assert held[d] == (held - {dest})[d] == (before[sp] - {dest})[d];
        }
      }
      forall d | d != dest ensures Selected(d) {
        assert old(Selected(d));
        CandidatesElsewhere(before, sp, held, dest, d);
        SelectedSameCandidates(links, before, received, best, d);
      }
      SelectBest(dest);
    }

    /** Relearn as one step of a packet scan. */
    method RelearnInPacket(sp: Addr, dest: Dest, held: map<Dest, Path>,
                           ghost b00: map<Dest, Route>, ghost dirty00: set<Dest>, ghost touched: set<Dest>)
      requires Valid() && sp in received
      requires held - {dest} == received[sp] - {dest}
      requires dest in held ==> StoredPath(asn, held[dest])
      requires dest !in touched && PacketProgress(b00, dirty00, best, dirty, touched)
      modifies this`received, this`best, this`dirty
      ensures Valid() && received == old(received)[sp := held]
      ensures PacketProgress(b00, dirty00, best, dirty, touched + {dest})
    {
      ghost var b0, dirty1 := best, dirty;
      Relearn(sp, dest, held);
      PacketProgressStep(b00, dirty00, b0, dirty1, best, dirty, touched, dest);
    }

    /** The effect of one entry of a packet scan in state `s`: the scan
        state and the daemon's tables become exactly what `Step` says. */
    method ApplyEntry(e: Entry, ghost s: Scan, speaker: Option<Addr>, processed: set<Dest>, ghost touched: set<Dest>,
                      ghost b00: map<Dest, Route>, ghost dirty00: set<Dest>)
      returns (speaker': Option<Addr>, processed': set<Dest>, ghost touched': set<Dest>, fault: bool)
      requires Valid()
      requires s == Scan(speaker, processed, received, touched, false)
      requires touched <= processed && PacketProgress(b00, dirty00, best, dirty, touched)
      modifies this`received, this`best, this`dirty
      ensures Valid()
      ensures Step(asn, s, e) == Scan(speaker', processed', received, touched', fault)
      ensures touched' <= processed' && PacketProgress(b00, dirty00, best, dirty, touched')
    {
      speaker', processed', touched', fault := speaker, processed, touched, false;
      match e {
        case Speaker(a) =>
          speaker' := if a == "" then None else Some(a);
        case Update(d, p) =>
          if speaker.Some? && d !in processed {
            processed' := processed + {d};
            var sp := speaker.value;
            if sp !in received {
              fault := true;
            } else if asn in p {
              if d in received[sp] {
                RelearnInPacket(sp, d, received[sp] - {d}, b00, dirty00, touched);
                touched' := touched + {d};
              }
            } else {
              assert StoredPath(asn, [asn] + p) by { assert ([asn] + p)[1..] == p; }
              RelearnInPacket(sp, d, received[sp][d := [asn] + p], b00, dirty00, touched);
              touched' := touched + {d};
            }
          }
        case Withdraw(d) =>
          if speaker.Some? {
            var sp := speaker.value;
            if sp !in received {
              fault := true;
            } else if d in received[sp] && d !in processed {
              processed' := processed + {d};
              RelearnInPacket(sp, d, received[sp] - {d}, b00, dirty00, touched);
              touched' := touched + {d};
            }
          }
      }
    }

    /** Process one inbound packet: the learned routes become exactly what the
        scan of its entries says, every destination the scan re-selected is
        consistent again, and nothing else is installed or marked. `ok` is
        false when an entry named an unknown speaker (the KeyError that ends
        processing); the entries before it keep their effect. */
    method ProcessRoutingPacket(entries: seq<Entry>) returns (ok: bool)
      requires Valid()
      modifies this`received, this`best, this`dirty
      ensures Valid()
      ensures received == Learn(asn, old(received), entries).received
      ensures ok == !Learn(asn, old(received), entries).fault
      ensures best - Learn(asn, old(received), entries).touched == old(best) - Learn(asn, old(received), entries).touched
      ensures old(dirty) <= dirty <= old(dirty) + Learn(asn, old(received), entries).touched
      ensures MarkedChanges(old(best), best, dirty)
      ensures OnlyChangesMarked(old(best), best, old(dirty), dirty)
    {
      var speaker: Option<Addr> := None;
      var processed: set<Dest> := {};
      ghost var touched: set<Dest> := {};
      var i := 0;
      while i < |entries|
        invariant 0 <= i <= |entries|
        invariant Valid()
        invariant Learn(asn, old(received), entries[..i]) == Scan(speaker, processed, received, touched, false)
        invariant PacketProgress(old(best), old(dirty), best, dirty, touched)
        invariant touched <= processed
        decreases |entries| - i
      {
        assert entries[..i + 1][..i] == entries[..i];
        ghost var pre := Scan(speaker, processed, received, touched, false);
        assert Learn(asn, old(received), entries[..i + 1]) == Step(asn, pre, entries[i]);
        var fault;
        speaker, processed, touched, fault := ApplyEntry(entries[i], pre, speaker, processed, touched, old(best), old(dirty));
        if fault {
          FaultAbsorbs(asn, old(received), entries[..i + 1], entries[i + 1..]);
          assert entries[..i + 1] + entries[i + 1..] == entries;
          return false;
        }
        i := i + 1;
      }
      assert entries[..i] == entries;
      ok := true;
    }

    /** A link-property change: with a new revenue descriptor for `iface`,
        selection is re-run for every destination that has a route, so every
        destination is consistent with the new metrics afterwards; no
        destination gains or loses its route. Without one, nothing changes. */
    method UpdateLinkProperties(iface: Iface, revenues: Option<string>)
      requires Valid()
      modifies this`links, this`best, this`dirty
      ensures Valid()
      ensures revenues.None? ==> links == old(links) && best == old(best) && dirty == old(dirty)
      ensures revenues.Some? ==> links == old(links).(revenues := old(links).revenues[iface := revenues.value])
      ensures best.Keys == old(best).Keys
      ensures old(dirty) <= dirty <= old(dirty) + old(best).Keys
      ensures MarkedChanges(old(best), best, dirty)
      ensures OnlyChangesMarked(old(best), best, old(dirty), dirty)
    {
      if revenues.Some? {
        ghost var l0 := links;
        links := links.(revenues := links.revenues[iface := revenues.value]);
        forall d | d !in best ensures Selected(d) {
          assert old(Selected(d));
          SelectedWithoutRoute(l0, links, received, best, d);
        }
        forall d | d in best ensures Offered(received, d) {
          assert old(Selected(d));
        }
        ReselectRouted();
      }
    }

    /** One step of a re-selection pass: re-select the pending destination `d`,
        which still has candidates. */
    method ReselectNext(d: Dest, ghost b00: map<Dest, Route>, ghost dirty0: set<Dest>,
                        ghost keys: set<Dest>, ghost pending: set<Dest>)
      requires ReselectProgress(links, received, b00, best, dirty0, dirty, keys, pending)
      requires d in pending && Offered(received, d)
      modifies this`best, this`dirty
      ensures ReselectProgress(links, received, b00, best, dirty0, dirty, keys, pending - {d})
    {
      ghost var b0, dirty1 := best, dirty;
      SelectBest(d);
      assert d in best;
      ReselectProgressStep(links, received, b00, b0, best, dirty0, dirty1, dirty, keys, pending, d);
    }

    /** Re-run selection for every routed destination, in an unspecified
        order, after the metrics changed: each keeps a route, since its
        candidates are still there, and ends up consistent. */
    method ReselectRouted()
      requires forall d :: d !in best ==> Selected(d)
      requires forall d :: d in best ==> Offered(received, d)
      modifies this`best, this`dirty
      ensures forall d :: Selected(d)
      ensures best.Keys == old(best).Keys
      ensures old(dirty) <= dirty <= old(dirty) + old(best).Keys
      ensures MarkedChanges(old(best), best, dirty)
      ensures OnlyChangesMarked(old(best), best, old(dirty), dirty)
    {
      ghost var keys := best.Keys;
      ghost var dirty0 := dirty;
      var pending := best.Keys;
      while pending != {}
        invariant ReselectProgress(links, received, old(best), best, dirty0, dirty, keys, pending)
        decreases |pending|
      {
        var d :| d in pending;
        assert Offered(received, d) by {
          assert d in old(best);
        }
        ReselectNext(d, old(best), dirty0, keys, pending);
        pending := pending - {d};
      }
      forall d ensures Selected(d) {
        assert d !in pending;
      }
    }

    /** Export for one interface. An interface without a configured relation
        gets no packet and nothing changes. Otherwise its advertised state
        becomes exactly the exportable installed routes; the packet announces
        the exportable destinations that are dirty or changed and withdraws
        the advertised ones no longer installed or exportable, and there is no
        packet when both are empty. */
    method GenerateRoutingPacket(iface: Iface) returns (pkt: Option<Packet>)
      requires Valid()
      modifies this`advertised
      ensures Valid()
      ensures !Configured(links, iface) ==> pkt.None? && advertised == old(advertised)
      ensures Configured(links, iface) ==>
        var egress := RelationOf(Some(links.relations[iface]));
        var announced := AnnounceSet(egress, best, dirty, old(advertised)[iface]);
        var withdrawn := WithdrawSet(egress, best, old(advertised)[iface]);
        && advertised == old(advertised)[iface := Exported(egress, best)]
        && (pkt.None? <==> announced == {} && withdrawn == {})
        && (pkt.Some? ==>
              && (forall k :: 0 <= k < |pkt.value.updates| ==>
                    pkt.value.updates[k].0 in announced
                    && pkt.value.updates[k].1 == best[pkt.value.updates[k].0].path)
              && (forall d :: d in announced ==> exists k :: 0 <= k < |pkt.value.updates| && pkt.value.updates[k].0 == d)
              && (forall j, k :: 0 <= j < k < |pkt.value.updates| ==> pkt.value.updates[j].0 != pkt.value.updates[k].0)
              && (forall d :: d in pkt.value.withdrawals <==> d in withdrawn)
              && Distinct(pkt.value.withdrawals))
    {
      if !Configured(links, iface) {
        return None;
      }
      var egress := RelationOf(Some(links.relations[iface]));
      var announce, withdraw, adv := ExportDiff(egress, best, dirty, advertised[iface]);
      advertised := advertised[iface := adv];
      pkt := BuildPacket(best, announce, withdraw);
      if pkt.Some? {
        if announce != [] {
          assert announce[0] in announce;
        } else {
          assert withdraw[0] in withdraw;
        }
        forall d | d in AnnounceSet(egress, best, dirty, old(advertised)[iface])
          ensures exists k :: 0 <= k < |pkt.value.updates| && pkt.value.updates[k].0 == d
        {
          var k :| 0 <= k < |announce| && announce[k] == d;
          assert pkt.value.updates[k].0 == d;
        }
      }
    }
  }
}
