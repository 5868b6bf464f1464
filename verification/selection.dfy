/**
 * Best-route selection: the ordering on candidate metrics, what it means for
 * a neighbor's path to be a best candidate, the scan that finds one, and the
 * per-destination consistency the daemon keeps between its learned routes
 * and its installed best routes.
 */
module Selection {
  import opened Routes
  import opened Metrics

  /** An installed best route: path, the neighbor it came from, the interface
      it leaves through and the relation it was learned over. */
  datatype Route = Route(path: Path, neighbor: Addr, iface: Option<Iface>, learnedFrom: Relation)

  /** The route record for `path` learned from `neighbor`. */
  function RouteOf(links: Links, neighbor: Addr, path: Path): (r: Route)
    ensures r.path == path && r.neighbor == neighbor
    ensures r.iface == RouteMetrics(links, neighbor, path).iface
    ensures r.learnedFrom == RouteMetrics(links, neighbor, path).relation
  {
    var m := RouteMetrics(links, neighbor, path);
    Route(path, neighbor, m.iface, m.relation)
  }

  /** `a` is strictly preferred to `b`: a higher score, or an equal score and a
      shorter AS path. */
  predicate Better(a: Metrics, b: Metrics)
    ensures Better(a, b) ==> a.score >= b.score
    ensures a.score > b.score ==> Better(a, b)
  {
    a.score > b.score || (a.score == b.score && a.length < b.length)
  }

  /** Better is a strict order, and two metrics neither of which is better
      than the other agree on score and length. */
  lemma BetterIsStrictOrder(a: Metrics, b: Metrics, c: Metrics)
    ensures !Better(a, a)
    ensures Better(a, b) && Better(b, c) ==> Better(a, c)
    ensures !Better(a, b) && !Better(b, a) ==> a.score == b.score && a.length == b.length
  {
  }

  /** `ip` offers a candidate that no other candidate beats. */
  ghost predicate IsBest(links: Links, c: map<Addr, Path>, ip: Addr)
  {
    && ip in c
    && forall o :: o in c ==> !Better(RouteMetrics(links, o, c[o]), RouteMetrics(links, ip, c[ip]))
  }

  /** Every non-empty set of candidates has a best one. */
  lemma {:induction false} BestExists(links: Links, c: map<Addr, Path>)
    requires c != map[]
    ensures exists ip :: IsBest(links, c, ip)
    decreases |c|
  {
    var ip :| ip in c;
    var rest := c - {ip};
    var m := RouteMetrics(links, ip, c[ip]);
    if rest == map[] {
      assert c.Keys == {ip} by {
        forall o | o in c ensures o == ip {
          assert o !in rest;
        }
      }
      assert IsBest(links, c, ip);
    } else {
      assert |rest| < |c| by { assert rest.Keys < c.Keys; }
      BestExists(links, rest);
      var w :| IsBest(links, rest, w);
      var mw := RouteMetrics(links, w, c[w]);
      assert w in c && rest[w] == c[w];
      forall o | o in c && o != ip
        ensures o in rest && !Better(RouteMetrics(links, o, c[o]), mw)
      {
        assert o in rest && rest[o] == c[o];
      }
      if Better(m, mw) {
        assert IsBest(links, c, ip);
      } else {
        assert IsBest(links, c, w);
      }
    }
  }

  /** Two best candidates tie on both score and path length: iteration order
      only ever decides between such equals. */
  lemma BestTie(links: Links, c: map<Addr, Path>, a: Addr, b: Addr)
    requires IsBest(links, c, a) && IsBest(links, c, b)
    ensures RouteMetrics(links, a, c[a]).score == RouteMetrics(links, b, c[b]).score
    ensures RouteMetrics(links, a, c[a]).length == RouteMetrics(links, b, c[b]).length
  {
  }

  /** The candidate scan of one selection: visits every neighbor in an
      unspecified order and keeps the first candidate of all those with the
      greatest score and, among them, the shortest path. */
  method ScanCandidates(links: Links, received: Received, dest: Dest) returns (winner: Option<Route>)
    ensures winner.None? <==> Candidates(received, dest) == map[]
    ensures winner.Some? ==>
      && IsBest(links, Candidates(received, dest), winner.value.neighbor)
      && winner.value == RouteOf(links, winner.value.neighbor, received[winner.value.neighbor][dest])
  {
    ghost var c := Candidates(received, dest);
    winner := None;
    var bestMetrics := Metrics(0, 0, Unknown, None);
    var pending := received.Keys;
    while pending != {}
      invariant pending <= received.Keys
      invariant winner.None? ==> forall o :: o in c ==> o in pending
      invariant winner.Some? ==>
        && winner.value.neighbor in c
        && winner.value.neighbor !in pending
        && winner.value == RouteOf(links, winner.value.neighbor, c[winner.value.neighbor])
        && bestMetrics == RouteMetrics(links, winner.value.neighbor, c[winner.value.neighbor])
        && forall o :: o in c && o !in pending ==> !Better(RouteMetrics(links, o, c[o]), bestMetrics)
      decreases |pending|
    {
      var ip :| ip in pending;
      pending := pending - {ip};
      if dest in received[ip] {
        var path := received[ip][dest];
        var m := RouteMetrics(links, ip, path);
        if winner.None? || Better(m, bestMetrics) {
          winner := Some(Route(path, ip, m.iface, m.relation));
          bestMetrics := m;
        }
      }
    }
    if winner == None {
      assert c == map[] by {
        forall o | o in c ensures false { }
      }
    }
  }

  /** The installed route for `dest` agrees with the learned routes: it exists
      exactly when some neighbor offers a path, and its path is the path of a
      best candidate. */
  ghost predicate SelectedIn(links: Links, received: Received, best: map<Dest, Route>, dest: Dest)
  {
    && (dest in best <==> Offered(received, dest))
    && (dest in best ==>
          var c := Candidates(received, dest);
          exists ip :: IsBest(links, c, ip) && c[ip] == best[dest].path)
  }

  /** Whether a destination is consistent depends only on its own entry. */
  lemma SelectedFrame(links: Links, received: Received, b1: map<Dest, Route>, b2: map<Dest, Route>, dest: Dest)
    requires dest in b1 <==> dest in b2
    requires dest in b1 ==> b1[dest] == b2[dest]
    ensures SelectedIn(links, received, b1, dest) == SelectedIn(links, received, b2, dest)
  {
  }

  /** Changing the entry of `dest` alone keeps every other destination
      consistent. */
  lemma SelectedOthers(links: Links, received: Received, b1: map<Dest, Route>, b2: map<Dest, Route>, dest: Dest)
    requires b1 - {dest} == b2 - {dest}
    ensures forall d :: d != dest && SelectedIn(links, received, b1, d) ==> SelectedIn(links, received, b2, d)
  {
    forall d | d != dest && SelectedIn(links, received, b1, d)
      ensures SelectedIn(links, received, b2, d)
    {
      assert d in b1 <==> d in b1 - {dest};
      assert d in b2 <==> d in b2 - {dest};
      if d in b1 {
        assert b1[d] == (b1 - {dest})[d] == (b2 - {dest})[d] == b2[d];
      }
      SelectedFrame(links, received, b1, b2, d);
    }
  }

  /** Every destination outside `skip` is consistent. */
  ghost predicate SelectedExcept(links: Links, received: Received, best: map<Dest, Route>, skip: set<Dest>)
  {
    forall d :: d !in skip ==> SelectedIn(links, received, best, d)
  }

  /** One step of a re-selection pass: `d` was re-selected and nothing else
      changed, so one destination fewer is left to do. */
  lemma ReselectStep(links: Links, received: Received, b0: map<Dest, Route>, b1: map<Dest, Route>,
                     pending: set<Dest>, d: Dest)
    requires SelectedExcept(links, received, b0, pending)
    requires SelectedIn(links, received, b1, d)
    requires b1 - {d} == b0 - {d}
    ensures SelectedExcept(links, received, b1, pending - {d})
  {
    SelectedOthers(links, received, b0, b1, d);
  }

  /** Whether a destination is consistent depends only on its candidates. */
  lemma SelectedSameCandidates(links: Links, r1: Received, r2: Received, best: map<Dest, Route>, dest: Dest)
    requires Candidates(r1, dest) == Candidates(r2, dest)
    ensures SelectedIn(links, r1, best, dest) == SelectedIn(links, r2, best, dest)
  {
    OfferedCandidates(r1, dest);
    OfferedCandidates(r2, dest);
  }

  /** A destination without a route is consistent exactly when it has no
      candidates, whatever the link context. */
  lemma SelectedWithoutRoute(l1: Links, l2: Links, received: Received, best: map<Dest, Route>, dest: Dest)
    requires dest !in best
    ensures SelectedIn(l1, received, best, dest) == SelectedIn(l2, received, best, dest)
  {
  }

  /** A destination whose installed path is that of a best candidate is
      consistent. */
  lemma InstalledBestSelected(links: Links, received: Received, best: map<Dest, Route>, dest: Dest, ip: Addr)
    requires IsBest(links, Candidates(received, dest), ip)
    requires dest in best && best[dest].path == received[ip][dest]
    ensures SelectedIn(links, received, best, dest)
  {
    OfferedCandidates(received, dest);
  }

  /** A destination without candidates and without a route is consistent. */
  lemma NoCandidateSelected(links: Links, received: Received, best: map<Dest, Route>, dest: Dest)
    requires Candidates(received, dest) == map[] && dest !in best
    ensures SelectedIn(links, received, best, dest)
  {
    OfferedCandidates(received, dest);
  }

  /** An installed path is a stored one: it starts with the local ASN and
      holds it nowhere else, so a looping path is never installed. */
  lemma InstalledPathLoopFree(asn: ASN, links: Links, received: Received, best: map<Dest, Route>, dest: Dest)
    requires LoopFree(asn, received)
    requires SelectedIn(links, received, best, dest)
    requires dest in best
    ensures StoredPath(asn, best[dest].path)
  {
    var c := Candidates(received, dest);
    var ip :| IsBest(links, c, ip) && c[ip] == best[dest].path;
    assert received[ip][dest] == best[dest].path;
  }
}
