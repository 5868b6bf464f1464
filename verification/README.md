# EGP route engine, modelled in Dafny

This project models the decision-and-propagation core of the EGP routing daemon in
`simulator/lib/egp.py`, class `EGP`. The daemon is a path-vector (BGP-style) engine run
inside a network simulator. It does the following:

- learns AS paths per neighbor from inbound packets;
- rejects paths that contain its own AS number (loops);
- scores each candidate from the business relation and revenue descriptor of the
  interface it came through;
- installs one best route per destination, maximising the score and, on a tie,
  minimising the path length;
- marks every destination whose installed route changed as dirty;
- exports per interface under the valley-free policy: everything to a customer, and
  only customer-learned routes to anyone else. Each export is diffed against what was
  last advertised on that interface.

## Modules

- `routes.dfy` (`Routes`) holds the identifiers and AS paths. It defines the
  learned-route table (neighbor -> destination -> path), the candidates one destination
  has, and loop-freedom.
- `text.dfy` (`Text`) holds the Python string handling the revenue descriptors go
  through: `str.strip()`, `str.replace(c, '')`, `str.split(sep)` and `int()` on a
  `str`. It also proves the `int(str(n)) == n` round trip.
- `metrics.dfy` (`Metrics`) models `_get_route_metrics`: relation defaults, descriptor
  parsing with its fallbacks, and the relation bias.
- `selection.dfy` (`Selection`) holds the candidate order and what a best candidate
  is. It contains the candidate scan of `_select_best_route` and the per-destination
  consistency `SelectedIn` between learned and installed routes.
- `learning.dfy` (`Learning`) models the scan of one packet's entries in
  `processRoutingPacket` as a pure fold `Learn`/`Step`.
- `export.dfy` (`Export`) models the policy and diff of `generateRoutingPacket`, and
  the announce/withdraw content of `_build_packet`.
- `daemon.dfy` (`Daemon`) models the class `EGP`. Its tables are fields, and the entry
  points that change them are methods proved against the definitions above.

## How the model represents the source

- **Scores in tenths.** A score is the revenue plus a bias of 0.3, 0.2, 0.1 or 0, and
  the revenue is always an integer. The model therefore keeps `10 * revenue + bias`
  as an exact integer. For revenues of magnitude below 2^48 the float sums are spaced
  further apart than their rounding error, so they compare exactly as the tenths do.
  Larger revenues are covered under "## Left out".
- **Paths as tokens.** A stored path is the space-joined string `"<asn> <path>"`. The
  model keeps it as its token sequence `[asn] + path`. Every stored path string is
  produced the same way, so two stored strings are equal exactly when their token
  sequences are.
- **Iteration order.** Python dictionaries iterate in insertion order. In the source
  this decides two things. A full tie in `_select_best_route` goes to the neighbor
  whose table was created first, that is, whose interface comes first in `relations`
  (`egp.py:37-39`). Announcements follow the insertion order of `_best_routes`. The
  model deliberately leaves the order open: each loop over a dictionary picks its next
  key with `:|`, so every proof holds for every visiting order, the source's included.
  - Selection is stated up to ties. The installed path is the path of some
    candidate that no other candidate beats (`IsBest`).
  - `BestTie` shows that two such candidates agree on score and path length.
- **The global invariant `EGP.Valid()`.** It holds after configuration and is kept by
  every entry point. It consists of:
  - an advertised table for exactly the interfaces with a relation;
  - every learned path has passed loop detection;
  - every destination is consistent (`SelectedIn`). A destination has an installed
    route exactly when some neighbor offers a path for it, and the installed path is
    the path of a best candidate.
- **The forwarding table.** `setEntry` and `removeEntry` are called exactly where the
  installed route is created, replaced or removed. The table is therefore not kept
  separately. A routed destination is forwarded through the `iface` of its installed
  route, and an unrouted one has no entry.
- **Unknown speakers.** A speaker address with no learned-route table makes the source
  raise `KeyError` at `egp.py:77`, `:83` or `:87`. The model records this as
  `Scan.fault`, and `ProcessRoutingPacket` returns `ok == false`. Entries before it
  keep their effect.
- **Installed path unchanged, neighbor changed.** Selection compares only the installed
  path with the winner's path (`egp.py:170`). Suppose the winning path is unchanged
  but now comes from another neighbor, for example after the original neighbor
  withdrew and a second link to the same AS offers the same path. Then the stored
  neighbor and interface stay as they were. The model keeps this behaviour. Its
  consistency invariant therefore speaks about the installed path, not the neighbor
  it is recorded under.
- **The dirty set is never cleared.** Every later export re-announces every
  exportable dirty destination (`Export.ExportSettles`).

## Model

| member | source | states |
|---|---|---|
| Daemon.EGP.SetParameters | simulator/lib/egp.py:28-40 | The fresh daemon holds the AS number, relations and revenue descriptors it was given (none without `link_properties`). It has an empty learned-route table for the neighbor of every interface with a relation and for no other address, and an empty advertised table for exactly those interfaces. No routes and nothing dirty; `Valid()` holds. |
| Daemon.InvertNeighbours | simulator/lib/egp.py:31 | The neighbor index has exactly the configured addresses as keys. Each maps back to an interface that has that address as neighbor. |
| Daemon.InitTables | simulator/lib/egp.py:37-40 | One empty learned-route table per neighbor of a related interface, and no others. One empty advertised table per related interface. |
| Daemon.Configured | simulator/lib/egp.py:195-197 | Only an interface with a (non-empty) configured relation takes part in export. |
| Daemon.EGP.UpdateLinkProperties | simulator/lib/egp.py:51-59 | With a new descriptor: only that interface's descriptor changes, then every destination is consistent with the new metrics. No destination gains or loses a route. A destination becomes dirty exactly when its installed path changed, and only routed destinations may become dirty. Without one, nothing changes. |
| Daemon.EGP.ReselectRouted | simulator/lib/egp.py:57-59 | Re-selecting every routed destination in any order leaves all destinations consistent. Every destination keeps its route. A destination becomes dirty exactly when its installed path changed, and the dirty set grows only by routed destinations. |
| Daemon.EGP.ProcessRoutingPacket | simulator/lib/egp.py:61-90 | The learned routes become exactly what `Learning.Learn` computes from the entries. `ok` is false exactly on an unknown speaker. `Valid()` is kept. Installed routes and dirty marks change only for destinations the scan re-selected. A destination becomes dirty exactly when its installed path changed. |
| Daemon.EGP.Relearn | simulator/lib/egp.py:82-84 | Replacing one neighbor's entry for a destination with a stored path, or removing it, and re-selecting keeps `Valid()`. Only that destination's installed route may change. It becomes dirty exactly when its installed path changed, and if the path is unchanged the installed routes and the dirty set stay exactly as they were. |
| Daemon.EGP.SelectBest | simulator/lib/egp.py:143-178 | Afterwards the destination is consistent and every other one is untouched. If the installed path is unchanged, nothing changes at all. The destination becomes dirty exactly when its path changed, and any new route is a best candidate's with its metrics' interface and relation. |
| Daemon.EGP.GenerateRoutingPacket | simulator/lib/egp.py:194-230 | An interface without a relation gets no packet and nothing changes. Otherwise its advertised state becomes exactly the exportable installed routes. The packet announces exactly the exportable destinations that are dirty or changed, with their current paths, and withdraws exactly the advertised destinations no longer installed or exportable. No destination is announced or withdrawn twice. There is no packet when both sets are empty. |
| Learning.Step | simulator/lib/egp.py:65-90 | One entry keeps the set of known speakers. It adds to the re-selected set at most the destination it names. It changes the learned routes only for an update or withdrawal, and then that destination is re-selected. After a fault it is the identity. |
| Learning.Learn | simulator/lib/egp.py:65-90 | The scan of a whole packet, entry by entry. It never adds or drops a neighbor's table, and it re-selects only destinations it marked as processed. `LoopingUpdate`, `AcceptedUpdate`, `AcceptedWithdrawal`, `InertEntries`, `UnknownSpeakerFaults` and `FaultAbsorbs` pin each entry's effect. |
| Learning.AcceptedWithdrawal | simulator/lib/egp.py:85-90 | A withdrawal for a destination the known speaker holds, not yet handled in this packet, removes exactly that entry and re-selects the destination. |
| Learning.UnknownSpeakerFaults | simulator/lib/egp.py:76-87 | An update or withdrawal from a speaker without a learned-route table faults and leaves the learned routes as they were. |
| Learning.FaultAbsorbs | simulator/lib/egp.py:76-90 | After the unknown-speaker fault, further entries change nothing. |
| Learning.LoopingUpdate | simulator/lib/egp.py:76-80 | An update whose path holds the local AS number is never stored. The speaker's earlier entry for that destination is removed and re-selected exactly when it existed. |
| Learning.AcceptedUpdate | simulator/lib/egp.py:82-84 | A loop-free update stores `[asn] + path`, one token longer and a stored path. It re-selects the destination and leaves every other (neighbor, destination) entry as it was. |
| Learning.InertEntries | simulator/lib/egp.py:73-88 | These entries change nothing: an update or withdrawal before any speaker, a repeated update for a destination already handled, and a withdrawal for a destination not held or already handled. |
| Learning.WithoutSpeakerInert | simulator/lib/egp.py:62-73 | A packet without a speaker entry leaves the scan at its start. |
| Learning.LearnKeepsLoopFree | simulator/lib/egp.py:76-84 | Learning any packet keeps every learned path loop-free. |
| Learning.StepKeepsLoopFree | simulator/lib/egp.py:76-84 | One entry keeps every learned path loop-free. |
| Learning.LearnTouchesOnlyReselected | simulator/lib/egp.py:73-90 | A destination the scan did not re-select has the same candidates afterwards. |
| Learning.CandidatesElsewhere | simulator/lib/egp.py:77-89 | Editing one neighbor's entry for one destination leaves the candidates of every other destination unchanged. |
| Metrics.RouteMetrics | simulator/lib/egp.py:92-141 | The length is the token count. The interface is the neighbor's, and the relation is that interface's. The score is ten times the descriptor's revenue plus a bias of 0 to 3 tenths. |
| Metrics.Lookup | simulator/lib/egp.py:93-95 | `dict.get` with a key that may be `None`: the stored value when the key is present, nothing otherwise. |
| Metrics.BiasTenths | simulator/lib/egp.py:134-137 | The relation bias lies between 0 and 0.3. |
| Metrics.DefaultRevenue | simulator/lib/egp.py:120-128 | The fallback revenue is positive only for a customer and negative only for a provider. `DefaultScores` gives the exact values. |
| Metrics.ParseRevenue | simulator/lib/egp.py:104-117 | An advanced peer's descriptor without `;` fails, as `parts[1]` raises. `PairDescriptor`, `ScalarDescriptor` and `PlusDescriptor` pin the descriptors that parse. |
| Metrics.Revenue | simulator/lib/egp.py:101-128 | A missing, empty or unparsable descriptor yields the relation default, so an advanced peer without `;` scores 0. `UnparsableIsMissing` relates the two fallbacks. |
| Metrics.DefaultScores | simulator/lib/egp.py:123-139 | With no descriptor or an empty one, a customer scores 4.3, a provider -1.0, an advanced peer 0.2, a peer 0.1 and any other relation 0. |
| Metrics.UnparsableIsMissing | simulator/lib/egp.py:118-121 | A descriptor that does not parse scores exactly as a missing one. |
| Metrics.RevenueFirst | simulator/lib/egp.py:132-139 | A higher revenue always wins over the bias. |
| Metrics.BiasOrdersRelations | simulator/lib/egp.py:132-139 | On equal revenue the score difference is exactly the bias difference: customer, then advanced peer, then peer, then the rest. |
| Metrics.ScalarDescriptor | simulator/lib/egp.py:115-117 | `str(n)` as the descriptor of a non-advanced-peer interface scores `n`. |
| Metrics.PlusDescriptor | simulator/lib/egp.py:117 | `"+" + str(n)` scores `n` as well. |
| Metrics.PairDescriptor | simulator/lib/egp.py:106-114 | `"X;Y"` on an advanced-peer interface scores `Y`. |
| Text.Strip | simulator/lib/egp.py:113-117 | `str.strip()`: the result is the text with its leading whitespace dropped (`TrimStart`) and then its trailing whitespace dropped. It neither starts nor ends with whitespace, and is empty only when the text is all whitespace. `StripClean` shows it leaves clean text alone. |
| Text.RemoveAll | simulator/lib/egp.py:117 | `str.replace(c, '')`: the character no longer occurs, and text without it is unchanged. `RemoveAllAppend` shows the other characters are kept in order. |
| Text.RemoveAllAppend | simulator/lib/egp.py:117 | Removing a character from a concatenation removes it from each part separately. |
| Text.Split | simulator/lib/egp.py:112 | `str.split(sep)`: at least one piece, none holding the separator. `JoinSplit` shows that no text is lost. |
| Text.ParseInt | simulator/lib/egp.py:113-117 | `int()` on a string succeeds only when the stripped text is non-empty, starts with a digit or a sign and continues with digits only. A negative result needs a leading minus sign. `ParseShow` and `ParsePlusShow` pin its values. |
| Text.JoinSplit | simulator/lib/egp.py:112 | `str.split(sep)` loses nothing: joining the pieces gives the text back. |
| Text.SplitAt | simulator/lib/egp.py:112 | The first separator ends the first piece of a split. |
| Text.ParseShow | simulator/lib/egp.py:113 | `int(str(n)) == n` for every integer. |
| Text.ParsePlusShow | simulator/lib/egp.py:117 | `int("+" + str(n)) == n`. |
| Text.NumeralValueShowNat | simulator/lib/egp.py:117 | The decimal digits of `n` have value `n`. |
| Selection.Better | simulator/lib/egp.py:155-160 | A preferred candidate never has a lower score, and a higher score is always preferred. `BetterIsStrictOrder` shows it is a strict order. |
| Selection.BetterIsStrictOrder | simulator/lib/egp.py:155-160 | The preference is irreflexive and transitive. Candidates where neither is preferred tie on score and length. |
| Selection.BestExists | simulator/lib/egp.py:148-165 | Every non-empty candidate set has a candidate that no other beats. |
| Selection.BestTie | simulator/lib/egp.py:153-160 | Two best candidates agree on score and path length, so iteration order only decides between equals. |
| Selection.ScanCandidates | simulator/lib/egp.py:144-165 | The scan finds a winner exactly when some neighbor offers a path. The winner is a best candidate (an argmax of score, then of shortness), recorded with that neighbor's own path and metrics. |
| Selection.SelectedOthers | simulator/lib/egp.py:167-178 | Changing one destination's installed route keeps every other destination consistent. |
| Selection.InstalledPathLoopFree | simulator/lib/egp.py:76-84 | An installed path starts with the local AS number and never repeats it, so a looping path is never installed. |
| Export.Exportable | simulator/lib/egp.py:205-212 | A customer-learned route may go over every interface. `ValleyFree` states the whole policy. |
| Export.Exported | simulator/lib/egp.py:214-222 | What an interface holds after an export: only installed destinations, each with its current path. `ValleyFree` pins which ones. |
| Export.AnnounceSet | simulator/lib/egp.py:214-218 | Only exportable destinations are announced. One that is not dirty and was last advertised with its current path is not. |
| Export.WithdrawSet | simulator/lib/egp.py:219-228 | Only advertised destinations are withdrawn, and never one that is still exportable. `LostRouteWithdrawn` covers the lost routes. |
| Export.ExportDiff | simulator/lib/egp.py:199-228 | The new advertised state is exactly the exportable installed routes. The announce and withdraw lists hold exactly the announce and withdraw sets, without repeats. |
| Export.ExportInstalled | simulator/lib/egp.py:202-222 | The pass over the installed routes announces the exportable destinations that are dirty or changed, and withdraws the advertised ones no longer exportable. It updates the advertised state for installed destinations only. |
| Export.DropStale | simulator/lib/egp.py:224-228 | Stale cleanup withdraws and forgets exactly the advertised destinations that are no longer installed. |
| Export.ValleyFree | simulator/lib/egp.py:205-212 | A customer interface carries every installed route. Any other interface carries only customer-learned ones, and carries all of those. |
| Export.ExportSettles | simulator/lib/egp.py:214-222 | Right after an export, a second one with no route change withdraws nothing and re-announces exactly the exportable dirty destinations. |
| Export.LostRouteWithdrawn | simulator/lib/egp.py:224-228 | A destination that lost its route is withdrawn from every interface that had advertised it. |
| Export.BuildPacket | simulator/lib/egp.py:180-192 | No packet exactly when there is nothing to announce or withdraw. Otherwise one update per announced destination, in order and with its installed path, and the withdrawals as given. |

## Left out

- `bindToRouter`, `update`, `dbg` and the `AbstractRoutingDaemon` base class are not
  modelled. They only store collaborators, do nothing, or print.
- Packet text is not modelled: the `speaker:`, `EGP-update` and `EGP-withdrawal` line
  formats, `RoutingPacket` and `Payload`, and the router's own address in the packet.
  - Inbound entries arrive already parsed as `Learning.Entry`.
  - The outbound packet is the list of (destination, path) updates and the list of
    withdrawals.
  - Malformed lines, which raise `IndexError` in the source, are not modelled, and
    neither are lines with any other prefix, which the source ignores.
- Daemon.EGP.ProcessRoutingPacket: the `iface` argument of `processRoutingPacket` is
  unused by the source and is dropped.
- Daemon.EGP.SetParameters: only configuration of a fresh daemon is modelled. A second
  call would reset the learned and advertised tables of every configured neighbor and
  interface to empty. The installed routes, the dirty set, the learned-route tables of
  neighbors no longer configured and the advertised tables of interfaces no longer
  related would survive it. So would the old revenue descriptors when the new call has
  no `link_properties` (`egp.py:34-35`).
  - A relation whose interface has no neighbor raises `KeyError`. The constructor
    requires every related interface to name a neighbor.
  - The AS number is a whitespace-free token.
- The source keeps references to the caller's `relations` and `link_properties`
  dictionaries, so later changes by either side are shared. The model copies them as
  values.
- Daemon.InvertNeighbours: where two interfaces share a neighbor address, the source
  keeps the last one in insertion order. The model says only that some interface
  with that address is kept.
- Metrics.RouteMetrics: floating point is not modelled. Scores are exact tenths. From a
  revenue magnitude of about 2^48 on, the float sums can collapse relation biases. For
  example, `2**49 + 0.3` and `2**49 + 0.2` both round to `2**49 + 0.25`. The source
  then sees a tie, while the model ranks the customer strictly higher. Overflow of
  revenues beyond the float range is left out as well.
- Metrics.ParseRevenue: `int()` is modelled for ASCII digits with an optional sign and
  ASCII whitespace. Underscore digit separators, non-ASCII digits and non-ASCII
  whitespace are left out.
  - Descriptors that are not strings are left out. In the source they fall back to
    the defaults through the caught exception.
- Daemon.EGP.SelectBest: the forwarding table is not a separate object, and the
  `setEntry`/`removeEntry` calls are not modelled individually. They are issued exactly
  when the installed route changes, so the table is the map from each routed
  destination to the `iface` of its installed route.
- Daemon.EGP.SelectBest: the contract states that the installed path is a best
  candidate's path. When the winning path is unchanged, it does not state that the
  installed neighbor and interface are a best candidate's, because the source does
  not update them in that case.
- Export.ExportDiff: the order of the announce and withdraw lists follows dictionary
  insertion order in the source. The model states their contents and that they have no
  repeats, not their order.
