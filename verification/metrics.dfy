/**
 * Metric evaluation: the score of a learned path from the business relation
 * and the revenue descriptor of the interface it arrived on, plus its length.
 *
 * Scores are kept in tenths, so the relation bias (0.3, 0.2, 0.1, 0) is an
 * integer 3, 2, 1, 0 added to ten times the revenue.
 */
module Metrics {
  import opened Routes
  import opened Text

  datatype Relation = Customer | Peer | AdvancedPeer | Provider | Unknown

  /** The relation a configured name stands for; any other name, and no name
      at all, compares equal to none of the four. */
  function RelationOf(name: Option<string>): Relation
  {
    if name == Some("customer") then Customer
    else if name == Some("peer") then Peer
    else if name == Some("advanced-peer") then AdvancedPeer
    else if name == Some("provider") then Provider
    else Unknown
  }

  /** Per-interface link context: relation and revenue descriptor by interface,
      and the interface each neighbor address is reached through. */
  datatype Links = Links(relations: map<Iface, string>, ipToIface: map<Addr, Iface>, revenues: map<Iface, string>)

  /** dict.get(key) where the key itself may be None. */
  function Lookup(m: map<Iface, string>, key: Option<Iface>): (r: Option<string>)
    ensures r.Some? <==> key.Some? && key.value in m
    ensures r.Some? ==> r.value == m[key.value]
  {
    if key.Some? then Get(m, key.value) else None
  }

  /** Score of a relation when it has no usable revenue descriptor. */
  function DefaultRevenue(rel: Relation): (v: int)
    ensures v > 0 <==> rel == Customer
    ensures v < 0 <==> rel == Provider
  {
    match rel
    case Customer => 4
    case Provider => -1
    case _ => 0
  }

  /** The relation tie-break bias, in tenths. */
  function BiasTenths(rel: Relation): (b: int)
    ensures 0 <= b <= 3
  {
    match rel
    case Customer => 3
    case AdvancedPeer => 2
    case Peer => 1
    case _ => 0
  }

  /** The revenue a descriptor yields, or None where Python raises: an
      advanced peer reads Y out of "X;Y", everyone else a signed integer with
      every '+' removed. */
  function ParseRevenue(rel: Relation, text: string): (r: Option<int>)
    ensures rel == AdvancedPeer && ';' !in text ==> r.None?
  {
    if rel == AdvancedPeer then
      var parts := Split(text, ';');
      assert ';' !in text ==> parts == [text] by {
        if ';' !in text { SplitWhole(text, ';'); }
      }
      if |parts| < 2 then None else ParseInt(Strip(parts[1]))
    else
      ParseInt(RemoveAll(Strip(text), '+'))
  }

  /** The financial score: the parsed revenue, or the relation default when
      the descriptor is missing, empty or unparsable. */
  function Revenue(rel: Relation, descriptor: Option<string>): (v: int)
    ensures descriptor.None? || descriptor == Some("") ==> v == DefaultRevenue(rel)
    ensures descriptor.Some? && ParseRevenue(rel, descriptor.value) == None ==> v == DefaultRevenue(rel)
    ensures rel == AdvancedPeer && descriptor.Some? && ';' !in descriptor.value ==> v == 0
  {
    if descriptor.Some? && descriptor.value != "" then
      match ParseRevenue(rel, descriptor.value)
      case Some(v) => v
      case None => DefaultRevenue(rel)
    else
      DefaultRevenue(rel)
  }

  datatype Metrics = Metrics(score: int, length: nat, relation: Relation, iface: Option<Iface>)

  /** The metrics of `path` learned from `neighbor`: score (revenue and bias, in
      tenths), AS-path length, the relation and the interface it came through. */
  function RouteMetrics(links: Links, neighbor: Addr, path: Path): (m: Metrics)
    ensures m.length == |path|
    ensures m.iface == Get(links.ipToIface, neighbor)
    ensures m.relation == RelationOf(Lookup(links.relations, m.iface))
    ensures 0 <= m.score - 10 * Revenue(m.relation, Lookup(links.revenues, m.iface)) <= 3
  {
    var iface := Get(links.ipToIface, neighbor);
    var rel := RelationOf(Lookup(links.relations, iface));
    Metrics(10 * Revenue(rel, Lookup(links.revenues, iface)) + BiasTenths(rel), |path|, rel, iface)
  }

  /** The revenue of a neighbor's interface, as RouteMetrics reads it. */
  function NeighborRevenue(links: Links, neighbor: Addr): int
  {
    var iface := Get(links.ipToIface, neighbor);
    Revenue(RelationOf(Lookup(links.relations, iface)), Lookup(links.revenues, iface))
  }

  /** Without a usable descriptor the scores are the relation defaults plus
      bias: customer 4.3, provider -1.0, advanced peer 0.2, peer 0.1, other 0. */
  lemma DefaultScores(links: Links, neighbor: Addr, path: Path)
    requires var d := Lookup(links.revenues, Get(links.ipToIface, neighbor)); d.None? || d == Some("")
    ensures var m := RouteMetrics(links, neighbor, path);
      && (m.relation == Customer ==> m.score == 43)
      && (m.relation == Provider ==> m.score == -10)
      && (m.relation == AdvancedPeer ==> m.score == 2)
      && (m.relation == Peer ==> m.score == 1)
      && (m.relation == Unknown ==> m.score == 0)
  {
  }

  /** A descriptor that does not parse scores exactly as a missing one. */
  lemma UnparsableIsMissing(rel: Relation, text: string)
    requires ParseRevenue(rel, text).None?
    ensures Revenue(rel, Some(text)) == Revenue(rel, None) == DefaultRevenue(rel)
  {
  }

  /** Revenue decides first: a higher revenue outscores any bias. */
  lemma RevenueFirst(links: Links, a: Addr, pa: Path, b: Addr, pb: Path)
    requires NeighborRevenue(links, a) > NeighborRevenue(links, b)
    ensures RouteMetrics(links, a, pa).score > RouteMetrics(links, b, pb).score
  {
  }

  /** On equal revenue the relation decides: customer, then advanced peer,
      then peer, then the rest. */
  lemma BiasOrdersRelations(links: Links, a: Addr, pa: Path, b: Addr, pb: Path)
    requires NeighborRevenue(links, a) == NeighborRevenue(links, b)
    ensures var ma, mb := RouteMetrics(links, a, pa), RouteMetrics(links, b, pb);
      ma.score - mb.score == BiasTenths(ma.relation) - BiasTenths(mb.relation)
  {
  }

  /** A signed-integer descriptor scores its value for every relation but the
      advanced peer. */
  lemma ScalarDescriptor(rel: Relation, n: int)
    requires rel != AdvancedPeer
    ensures Revenue(rel, Some(Show(n))) == n
  {
    var s := Show(n);
    ShowHasNoSign(n);
    assert !IsSpace(s[0]) && !IsSpace(s[|s| - 1]);
    StripClean(s);
    assert RemoveAll(Strip(s), '+') == s;
    ParseShow(n);
    assert ParseRevenue(rel, s) == Some(n);
  }

  /** So does one written with an explicit plus sign, like "+4". */
  lemma PlusDescriptor(rel: Relation, n: nat)
    requires rel != AdvancedPeer
    ensures Revenue(rel, Some("+" + ShowNat(n))) == n
  {
    var s := "+" + ShowNat(n);
    ShowHasNoSign(n);
    assert !IsSpace(s[0]) && !IsSpace(s[|s| - 1]);
    StripClean(s);
    assert s[1..] == Show(n);
    assert RemoveAll(s, '+') == RemoveAll(Show(n), '+') == Show(n);
    ParseShow(n);
    assert ParseRevenue(rel, s) == Some(n);
  }

  /** An "X;Y" descriptor scores Y for an advanced peer. */
  lemma PairDescriptor(x: int, y: int)
    ensures Revenue(AdvancedPeer, Some(Show(x) + ";" + Show(y))) == y
  {
    var text := Show(x) + ";" + Show(y);
    ShowHasNoSign(x);
    ShowHasNoSign(y);
    assert text == Show(x) + [';'] + Show(y);
    SplitAt(Show(x), Show(y), ';');
    SplitWhole(Show(y), ';');
    assert Split(text, ';')[1] == Show(y);
    StripShow(y);
    ParseShow(y);
    assert ParseRevenue(AdvancedPeer, text) == Some(y);
  }
}
