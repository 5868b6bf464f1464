/**
 * Shared vocabulary of the EGP daemon: identifiers, AS paths and the
 * learned-route table, with the two views of that table the other modules
 * reason about (the candidates for one destination, and loop-freedom).
 */
module Routes {

  datatype Option<+T> = None | Some(value: T)

  /** An autonomous-system number, as the whitespace-free token it is on the wire. */
  type ASN = string
  /** A neighbor router's address. */
  type Addr = string
  /** A local interface name. */
  type Iface = string
  /** A destination prefix. */
  type Dest = string

  /** An AS path as its tokens, the most recently prepended first. */
  type Path = seq<ASN>

  /** Learned routes: neighbor address -> destination -> AS path. */
  type Received = map<Addr, map<Dest, Path>>

  function Get<K, V>(m: map<K, V>, k: K): (r: Option<V>)
    ensures r.Some? <==> k in m
    ensures r.Some? ==> r.value == m[k]
  {
    if k in m then Some(m[k]) else None
  }

  /** The paths the neighbors currently offer for `dest`, keyed by neighbor. */
  function Candidates(received: Received, dest: Dest): map<Addr, Path>
  {
    map ip | ip in received && dest in received[ip] :: received[ip][dest]
  }

  /** Some neighbor offers a path for `dest`. */
  ghost predicate Offered(received: Received, dest: Dest)
  {
    exists ip :: ip in received && dest in received[ip]
  }

  lemma OfferedCandidates(received: Received, dest: Dest)
    ensures Offered(received, dest) <==> Candidates(received, dest) != map[]
  {
    if Offered(received, dest) {
      var ip :| ip in received && dest in received[ip];
      assert ip in Candidates(received, dest);
    } else if Candidates(received, dest) != map[] {
      var ip :| ip in Candidates(received, dest);
    }
  }

  /** A path as the daemon stores it: the local ASN first, and nowhere after. */
  predicate StoredPath(asn: ASN, p: Path)
  {
    p != [] && p[0] == asn && asn !in p[1..]
  }

  /** Every learned path has passed loop detection. */
  ghost predicate LoopFree(asn: ASN, received: Received)
  {
    forall ip, d :: ip in received && d in received[ip] ==> StoredPath(asn, received[ip][d])
  }

  /** Two maps that agree outside `t` and outside `{d}` respectively chain to
      agreement outside `t + {d}`. */
  lemma MinusStep<K, V>(a: map<K, V>, b: map<K, V>, c: map<K, V>, t: set<K>, d: K)
    requires a - {d} == b - {d}
    requires b - t == c - t
    ensures a - (t + {d}) == c - (t + {d})
  {
    forall k | k !in t + {d}
      ensures (k in a <==> k in c) && (k in a ==> a[k] == c[k])
    {
      assert k in a <==> k in a - {d};
      assert k in b <==> k in b - {d};
      assert k in b <==> k in b - t;
      assert k in c <==> k in c - t;
      if k in a {
        assert a[k] == (a - {d})[k] == (b - {d})[k] == b[k] == (b - t)[k] == (c - t)[k] == c[k];
      }
    }
  }

  /** Maps that agree outside `{d}` and both hold `d` have the same keys. */
  lemma KeysStep<K, V>(a: map<K, V>, b: map<K, V>, d: K)
    requires a - {d} == b - {d}
    requires d in a && d in b
    ensures a.Keys == b.Keys
  {
    forall k | k in a ensures k in b {
      if k != d {
        assert k in a - {d};
      }
    }
    forall k | k in b ensures k in a {
      if k != d {
        assert k in b - {d};
      }
    }
  }

  /** Writing or removing key `k` leaves the map unchanged outside `{k}`. */
  lemma EditOutside<K, V>(m: map<K, V>, k: K, v: V)
    ensures m[k := v] - {k} == m - {k}
    ensures (m - {k}) - {k} == m - {k}
  {
    forall j | j != k ensures (j in m[k := v] <==> j in m) && (j in m ==> m[k := v][j] == m[j]) { }
    assert m[k := v] - {k} == m - {k};
  }

  /** A set that grows by at most one member of `keys` per step stays
      between its start and its start plus `keys`. */
  lemma GrowWithin<K>(start: set<K>, prev: set<K>, next: set<K>, keys: set<K>, k: K)
    requires start <= prev <= start + keys
    requires prev <= next <= prev + {k}
    requires k in keys
    ensures start <= next <= start + keys
  {
  }
}
