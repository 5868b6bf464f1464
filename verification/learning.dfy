/**
 * Route learning, as a pure fold over the entries of one inbound packet: it
 * says what the learned-route table becomes, which destinations have to be
 * re-selected, and whether the scan stops on an unknown speaker.
 */
module Learning {
  import opened Routes

  /** One payload entry, already parsed from its wire text. */
  datatype Entry = Speaker(addr: Addr) | Update(dest: Dest, path: Path) | Withdraw(dest: Dest)

  /** The destinations an entry names. */
  function Mentions(e: Entry): set<Dest>
  {
    match e
    case Speaker(_) => {}
    case Update(d, _) => {d}
    case Withdraw(d) => {d}
  }

  /** The state of a scan: the current speaker, the destinations already
      handled in this packet, the learned routes, the destinations whose
      selection was re-run, and whether the scan hit an unknown speaker
      (the KeyError that ends processing). */
  datatype Scan = Scan(speaker: Option<Addr>, processed: set<Dest>, received: Received, touched: set<Dest>, fault: bool)

  function Start(received: Received): Scan
  {
    Scan(None, {}, received, {}, false)
  }

  /** The effect of one entry. */
  function Step(asn: ASN, s: Scan, e: Entry): (r: Scan)
    ensures s.fault ==> r == s
    ensures r.received.Keys == s.received.Keys
    ensures s.touched <= r.touched <= s.touched + Mentions(e)
    ensures r.received != s.received ==> !e.Speaker? && e.dest in r.touched
    ensures s.touched <= s.processed ==> r.touched <= r.processed
  {
    if s.fault then s
    else match e
      case Speaker(a) =>
        s.(speaker := if a == "" then None else Some(a))
      case Update(d, p) =>
        if s.speaker.None? || d in s.processed then s
        else if s.speaker.value !in s.received then s.(processed := s.processed + {d}, fault := true)
        else
          var sp := s.speaker.value;
          var held := s.received[sp];
          if asn in p then
            if d in held then
              s.(processed := s.processed + {d}, received := s.received[sp := held - {d}], touched := s.touched + {d})
            else
              s.(processed := s.processed + {d})
          else
            s.(processed := s.processed + {d}, received := s.received[sp := held[d := [asn] + p]], touched := s.touched + {d})
      case Withdraw(d) =>
        if s.speaker.None? then s
        else if s.speaker.value !in s.received then s.(fault := true)
        else
          var sp := s.speaker.value;
          var held := s.received[sp];
          if d in held && d !in s.processed then
            s.(processed := s.processed + {d}, received := s.received[sp := held - {d}], touched := s.touched + {d})
          else s
  }

  /** The scan of a whole packet, entry by entry. */
  function Learn(asn: ASN, received: Received, entries: seq<Entry>): (r: Scan)
    ensures r.received.Keys == received.Keys
    ensures r.touched <= r.processed
    decreases |entries|
  {
    if entries == [] then Start(received)
    else Step(asn, Learn(asn, received, entries[..|entries| - 1]), entries[|entries| - 1])
  }

  /** Once the scan stops on an unknown speaker, later entries change nothing. */
  lemma {:induction false} FaultAbsorbs(asn: ASN, received: Received, entries: seq<Entry>, more: seq<Entry>)
    requires Learn(asn, received, entries).fault
    ensures Learn(asn, received, entries + more) == Learn(asn, received, entries)
    decreases |more|
  {
    if more != [] {
      var front := more[..|more| - 1];
      assert (entries + more)[..|entries + more| - 1] == entries + front;
      FaultAbsorbs(asn, received, entries, front);
    } else {
      assert entries + more == entries;
    }
  }

  /** A looping update (the local ASN is a token of its path) from a known
      speaker, for a destination not yet handled: the path is not stored, and
      any earlier entry for that speaker and destination is removed and
      re-selected. */
  lemma LoopingUpdate(asn: ASN, s: Scan, d: Dest, p: Path)
    requires !s.fault && s.speaker.Some? && s.speaker.value in s.received
    requires d !in s.processed && asn in p
    ensures var r, sp := Step(asn, s, Update(d, p)), s.speaker.value;
      && d !in r.received[sp]
      && r.received == s.received[sp := s.received[sp] - {d}]
      && (d in r.touched <==> d in s.touched || d in s.received[sp])
      && d in r.processed && !r.fault
  {
    var sp := s.speaker.value;
    if d !in s.received[sp] {
      assert s.received[sp] - {d} == s.received[sp];
      assert s.received[sp := s.received[sp]] == s.received;
    }
  }

  /** An accepted update stores [asn] + path for its speaker, one token longer
      than it arrived, re-selects the destination, and leaves every other
      (neighbor, destination) entry as it was. */
  lemma AcceptedUpdate(asn: ASN, s: Scan, d: Dest, p: Path)
    requires !s.fault && s.speaker.Some? && s.speaker.value in s.received
    requires d !in s.processed && asn !in p
    ensures var r, sp := Step(asn, s, Update(d, p)), s.speaker.value;
      && d in r.received[sp] && r.received[sp][d] == [asn] + p
      && |r.received[sp][d]| == |p| + 1
      && StoredPath(asn, r.received[sp][d])
      && (forall ip, x :: ip in s.received && x in s.received[ip] && (ip, x) != (sp, d) ==>
            x in r.received[ip] && r.received[ip][x] == s.received[ip][x])
      && (forall ip :: ip in r.received && ip != sp ==> r.received[ip] == s.received[ip])
      && d in r.touched && !r.fault
  {
  }

  /** A withdrawal from a known speaker for a destination it holds and that
      was not handled yet removes that entry and re-selects the destination. */
  lemma AcceptedWithdrawal(asn: ASN, s: Scan, d: Dest)
    requires !s.fault && s.speaker.Some? && s.speaker.value in s.received
    requires d in s.received[s.speaker.value] && d !in s.processed
    ensures var r, sp := Step(asn, s, Withdraw(d)), s.speaker.value;
      && r.received == s.received[sp := s.received[sp] - {d}]
      && d !in r.received[sp]
      && d in r.touched && d in r.processed && !r.fault
  {
  }

  /** An update or withdrawal from a speaker without a learned-route table is
      the KeyError: the scan stops and the learned routes stay as they were.
      A repeated update stops nothing, since it is skipped before the lookup. */
  lemma UnknownSpeakerFaults(asn: ASN, s: Scan, e: Entry)
    requires !s.fault && !e.Speaker?
    requires s.speaker.Some? && s.speaker.value !in s.received
    requires e.Update? ==> e.dest !in s.processed
    ensures Step(asn, s, e).fault && Step(asn, s, e).received == s.received
  {
  }

  /** Entries that change nothing: an update or withdrawal before any speaker,
      a second update for a destination already handled in this packet, and a
      withdrawal for a destination the speaker does not hold or that was
      already handled. */
  lemma InertEntries(asn: ASN, s: Scan, e: Entry)
    requires !s.fault && !e.Speaker?
    requires
      || s.speaker.None?
      || (e.Update? && e.dest in s.processed)
      || (e.Withdraw? && s.speaker.value in s.received
            && (e.dest !in s.received[s.speaker.value] || e.dest in s.processed))
    ensures Step(asn, s, e) == s
  {
  }

  /** A packet without a speaker entry is inert. */
  lemma {:induction false} WithoutSpeakerInert(asn: ASN, received: Received, entries: seq<Entry>)
    requires forall k :: 0 <= k < |entries| ==> !entries[k].Speaker?
    ensures Learn(asn, received, entries) == Start(received)
    decreases |entries|
  {
    if entries != [] {
      WithoutSpeakerInert(asn, received, entries[..|entries| - 1]);
    }
  }

  /** Learning never stores a path that fails loop detection. */
  lemma {:induction false} LearnKeepsLoopFree(asn: ASN, received: Received, entries: seq<Entry>)
    requires LoopFree(asn, received)
    ensures LoopFree(asn, Learn(asn, received, entries).received)
    decreases |entries|
  {
    if entries != [] {
      var s := Learn(asn, received, entries[..|entries| - 1]);
      LearnKeepsLoopFree(asn, received, entries[..|entries| - 1]);
      StepKeepsLoopFree(asn, s, entries[|entries| - 1]);
    }
  }

  lemma StepKeepsLoopFree(asn: ASN, s: Scan, e: Entry)
    requires LoopFree(asn, s.received)
    ensures LoopFree(asn, Step(asn, s, e).received)
  {
    var r := Step(asn, s, e);
    forall ip, d | ip in r.received && d in r.received[ip]
      ensures StoredPath(asn, r.received[ip][d])
    {
      if !(d in s.received[ip] && r.received[ip][d] == s.received[ip][d]) {
        assert e.Update? && asn !in e.path && r.received[ip][d] == [asn] + e.path;
        assert ([asn] + e.path)[1..] == e.path;
      }
    }
  }

  /** Editing one neighbor's entry for `dest` leaves the candidates of every
      other destination as they were. */
  lemma CandidatesElsewhere(received: Received, sp: Addr, held: map<Dest, Path>, dest: Dest, other: Dest)
    requires sp in received
    requires held - {dest} == received[sp] - {dest}
    requires other != dest
    ensures Candidates(received[sp := held], other) == Candidates(received, other)
  {
    var r := received[sp := held];
    forall ip | ip in r
      ensures (other in r[ip] <==> other in received[ip])
      ensures other in r[ip] ==> r[ip][other] == received[ip][other]
    {
      if ip == sp {
        assert other in held <==> other in held - {dest};
        assert other in received[sp] <==> other in received[sp] - {dest};
        if other in held {
          assert held[other] == (held - {dest})[other];
          assert received[sp][other] == (received[sp] - {dest})[other];
        }
      }
    }
  }

  /** Only the destinations a scan re-selects have their candidates changed. */
  lemma {:induction false} LearnTouchesOnlyReselected(asn: ASN, received: Received, entries: seq<Entry>, d: Dest)
    requires d !in Learn(asn, received, entries).touched
    ensures Candidates(Learn(asn, received, entries).received, d) == Candidates(received, d)
    decreases |entries|
  {
    if entries != [] {
      var s := Learn(asn, received, entries[..|entries| - 1]);
      var e := entries[|entries| - 1];
      var r := Step(asn, s, e);
      LearnTouchesOnlyReselected(asn, received, entries[..|entries| - 1], d);
      if r.received != s.received {
        var sp := s.speaker.value;
        assert r.received == s.received[sp := r.received[sp]];
        assert r.received[sp] - {e.dest} == s.received[sp] - {e.dest};
        CandidatesElsewhere(s.received, sp, r.received[sp], e.dest, d);
      }
    }
  }
}
