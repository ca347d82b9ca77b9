# sloth: Action-frame detectors, alert keys, research coverage

A Dafny model of three parts of sloth that hold bounded state over unbounded
input, or build identities that must not merge, and proofs of what they promise.

**802.11 Action-frame detectors** (`src/action_snoop.c`). The parsers walk the
octets of a captured frame; four tables of least-recently-seen rows and three
rings stand in for the log of everything captured. Each class keeps that log as
ghost state and its invariant says that its arrays are a function of the log.
The four tables (SA Query, MFP, RRM, BTM) search and evict with the same loops,
so that code is one class, `Lru.Table`; a detector supplies how an observation
changes a row. A row's data is proved to be the replay of the observations its
key has had since the row was created, and the window theorems say exactly when
the bounded detector answers as the log would: key by key, while the table was not
crowded (more keys than it holds seen from the key's last time on) since anything of
the key inside the window, and for every key at once if no more keys than the table
holds are ever active together. `Action.Snoop` is the dispatcher:
after any capture every counter, table and ring holds what the captured frames
say it should, so the verdict and evidence theorems reach from octets on the air to
the alert. `BtmRequest`, `CsaWire` and `RrmWire` print the frames the parsers read,
field by field, and say what each printed frame leaves in its detector.

**Alert dedup keys** (`src/alert_key.c`). `AlertKey` gives the grammar and the
poisoned buffer on values and proves overflow exactness; `KeyIdentity` proves that a
key can be read back in one way only, and where the address fallback breaks that;
`KeyForms` reads the values back off the text;
`KeyBuilder.Builder` is the C object writing into a caller's buffer, proved to be
that value; `Fnv` and `Text` carry the arithmetic and the renderings.

**Research coverage** (`research/coverage.c`). Grouping of alerts by kind into 32
rows and their order.

`Wrappers`, `Seqs`, `Rings` and `Sorting` are the shared vocabulary: logs, filters,
rings with a modular cursor, and the insertion sort the sources contain four times.

`hide` statements narrow what a proof sees; they are there to keep verification
fast and always stand first in a body.

## Where the code and its comments differ

- `src/action_snoop.c:70-74` says the event ring fits a threshold-rate window of
  every tracked pair. It has 256 slots and that needs 512: `Btm.RingTooSmallForEveryPair`.
  The exact bounds are `Btm.RingExactIff` for a pair's requests and
  `Btm.ForcedExactIff` for the imminent ones that raise the alert.
- `src/action_snoop.h:250-251` says targeted requests are counted inside the
  window. The code compares the row's lifetime count, and a row can be evicted. The
  count is too large where the row still counts targeted requests from before the
  window (`Rrm.OverReports`), and too small where a targeted request inside the window
  went with an evicted row (`Rrm.UnderReports`: more than 64 pairs active).
  `Rrm.LifetimeIsWindowedIff` gives both conditions exactly, pair by pair: in the log
  alone, where no two pairs share a stamp, whether at any time since such a request 65
  pairs, the pair included, had been seen from its last time on.
  `Rrm.PromiseIsKeptIff` gives the condition for the detector's answer.
- `src/action_snoop.h:223` says `csa_latest` gives the most recent announcement of a
  BSS. Once the ring has wrapped it prefers one of the same second from the lap
  before: `Csa.LatestNeedNotBeLast` gives the input, `Csa.LatestIsLastIff` exactly when
  the answer is the most recent, `Csa.LatestOtherwise` what it is instead.
- `src/alert_key.c:15-17` says no partial component is written. A separator or the
  first digits of `akey_hex` can be: `AlertKey.PartialComponentStays` gives the input,
  `AlertKey.PartialComponentIff` says when.
- `src/alert_key.h:26-28` says component boundaries cannot be forged. The fallback of
  `akey_ip` forges one exactly for the addresses `KeyIdentity.Forgeable` describes, which
  are no address but begin with 24 octets of one: `KeyIdentity.ForgesIff`. Any such
  address merges two findings in a schema with a token between two addresses
  (`KeyIdentity.FallbackForgesBoundary`). While none is used, or each stands last or
  before a number, an address or a set, or the addresses of the schema stand together as
  at `src/alerts/rules_wired.c:196-197`, keys decode uniquely:
  `KeyIdentity.KeysDecodeUniquely`. Every rule that calls `akey_ip` is covered so.
- `src/action_snoop.c:311` names a worst category; it is the category of the first
  violation since the row was created: `Mfp.ViolationIsHistory`.

## Model

| member | source | states |
|---|---|---|
| `Lru.Table.Observe` | src/action_snoop.c:210-242 | search, free slot or eviction of the stalest row, reset and update leave the array equal to the table of the log extended by the observation |
| `Lru.Table.Lookup` | src/action_snoop.c:594-598 | the search loop finds the first row of the key, or none |
| `Lru.Table.StalestRow` | src/action_snoop.c:604-606 | the eviction loop finds the first row of least `last_seen` |
| `Lru.Table.Clear` | src/action_snoop.c:290-295 | an empty table with an empty log |
| `Lru.TableIsFaithful` | src/action_snoop.c:849-888 | in every reachable table keys are distinct, and each row is the replay of its key's observations since the row was created, stamped with the latest |
| `Lru.SinceIsSuffix` | src/action_snoop.c:219-240 | what a row has seen is the newest part of everything its key did |
| `Lru.AbsentIsStale` | src/action_snoop.c:325-333 | under a non-decreasing clock a key once seen and now absent implies a full table all of whose rows were seen no earlier |
| `Lru.StillResident` | src/action_snoop.c:600-607 | a key is resident until more keys than the capacity, itself included, were seen from its last time on |
| `Lru.CrowdedOut` | src/action_snoop.c:600-607 | a key has no row once as many others as the capacity were seen after its last time |
| `Lru.ResidentIff` | src/action_snoop.c:600-607 | but for ties of the clock, a key has a row if and only if no more keys than the capacity were seen from its last time on |
| `Lru.EvictedIsOld` | src/action_snoop.c:224-227 | an evicted key's observations all lie outside the window, if no more keys than the capacity are active |
| `Lru.ActiveAreResident` | src/action_snoop.c:856-864 | every key active in the window has a row if and only if no more keys than the capacity are active |
| `Lru.DroppedIsOld` | src/action_snoop.c:219-232 | whatever a row has forgotten of its key lies outside the window, if no more keys than the capacity were ever active together |
| `Lru.ActiveFitRemembers` | src/action_snoop.c:219-232 | so every key is remembered: nothing inside the window is forgotten of it, resident or not |
| `Lru.OldRowRemembers` | src/action_snoop.c:219-232 | however many keys are active, a key whose row is older than the window is remembered |
| `Lru.WindowIsExact` | src/action_snoop.c:219-232 | of a remembered key, table and log select the same observations in any window query |
| `Lru.ResidentInLog` | src/action_snoop.c:600-607 | a key has a row while the table is not crowded since its last time, and none once as many others as the capacity came strictly later; if no two keys share a stamp, exactly while not crowded |
| `Lru.KeptIffResident` | src/action_snoop.c:219-240 | an observation is still counted if and only if its key has had a row ever since |
| `Lru.KeptIffNotCrowded` | src/action_snoop.c:219-240 | in the log alone: if no two keys share a stamp, an observation is still counted if and only if the table was at no time since crowded for its key; with ties, not crowded suffices and overrun prevents it |
| `Lru.RemembersIffNotCrowded` | src/action_snoop.c:219-240 | so a key is remembered if and only if the table was not crowded since any of its observations in the window |
| `Lru.WindowIsExactIff` | src/action_snoop.c:219-232 | table and log select the same in-window observations of a key if and only if it is remembered, that is, if no two keys share a stamp, if and only if the table was not crowded since any of them |
| `Lru.NeverOvercounts` | src/action_snoop.c:219-232 | with no assumption at all the table only under-counts |
| `Rings.Push` | src/action_snoop.c:829-840 | writing at the cursor and advancing it modulo the size keeps the ring equal to the newest entries of the log, in order |
| `Rings.NewestAt` | src/action_snoop.c:933-935 | the slot `step` behind the cursor holds the step-th newest entry, across wrap-around |
| `Rings.SlotOfEntry` | src/action_snoop.c:829-840 | entry i of the log, while retained, sits in slot i modulo the size |
| `Rings.SlotAbove` | src/action_snoop.c:829-840 | of two retained entries the older sits in the higher slot if and only if the cursor passed slot 0 in between |
| `Rings.CountSlots` | src/action_snoop.c:909-915 | counting in slot order counts the retained part of the log |
| `Rings.CiteReverse` | src/ev_cite.h:93-97 | the first k IDs are reversed in place, the rest untouched |
| `Rings.CollectNewest` | src/action_snoop.c:932-940 | the backward walk collects the newest non-zero IDs of the selected entries, newest first, at most `max` |
| `Rings.CiteNewest` | src/action_snoop.c:928-944 | the newest `max` non-zero IDs of the selected entries, oldest first; nothing past `max` is written |
| `Rings.IdsWereSelected` | src/action_snoop.c:274-280 | every ID cited is that of a selected entry, and there are no more than were selected |
| `Rings.SelectedAreCited` | src/action_snoop.c:274-280 | and every non-zero ID of a selected entry is among them, but for room |
| `Sorting.InsertionSort` | src/action_snoop.c:973-981 | the shifting loop leaves the prefix equal to the functional insertion sort and the rest unchanged |
| `Sorting.SortMultiset` | src/action_snoop.c:757-765 | the result is a permutation |
| `Sorting.SortSorted` | research/coverage.c:87-95 | the result is in order, for any strict weak order |
| `Sorting.SortStable` | src/action_snoop.c:757-765 | elements that tie keep their relative order |
| `Sorting.SortCanonical` | src/alert_key.c:129-134 | under a total order the result does not depend on the order of the input |
| `Dot11.CategoryOf` | src/action_snoop.c:94-119 | a readable category implies a complete header and two body octets |
| `Dot11.CategoryOnOctets` | src/action_snoop.c:94-119 | the three answers on the octets: 0xD0 first, the Protected and +HTC bits of the second, category and action at 24 or 28 |
| `Dot11.HeadDecodes` | src/action_snoop.c:94-119 | a printed header of 24 or 28 octets reads back: addresses, length, and the category by the Protected bit and what follows |
| `Dot11.HeadOfFrame` | src/action_snoop.c:94-119 | every frame with a whole header begins with a printed one |
| `Dot11.TlvIter.Next` | src/bytes.h:175-208 | yields the next element that fits; end and overrun are terminal and leave the offset where the walk stopped |
| `Dot11.ElementsOfPrint` | src/bytes.h:121-142 | any printed element list reads back whole, whatever overrunning tail follows |
| `Dot11.PrintOfElements` | src/bytes.h:121-142 | every region is a printed element list followed by something that does not fit |
| `SaQuery.RingIsHistory` | src/action_snoop.c:236-240 | a row's ring holds the newest 48 stamps of its history |
| `SaQuery.RowHolds` | src/action_snoop.c:192-202 | row by row of a reachable table, those are the retained stamps of its pair |
| `SaQuery.FloodPair` | src/action_snoop.c:244-264 | the pair with most retained in-window stamps and its count, reported if it reaches the threshold |
| `SaQuery.CountRing` | src/action_snoop.c:252-254 | the inner loop counts the in-window stamps of a row |
| `SaQuery.HeldNeverExceeds` | src/action_snoop.c:192-264 | the count reported never exceeds the log's, whatever the clock |
| `SaQuery.ActiveFitSuffices` | src/action_snoop.c:192-264 | if no more than 64 pairs were ever active in one window, the table keeps enough of every pair: nothing forgotten inside the window, or a saturated row |
| `SaQuery.RetainedIsExact` | src/action_snoop.c:192-264 | where it keeps enough of a pair, the retained in-window stamps are the newest 48 of the log's |
| `SaQuery.HeldIsExactIff` | src/action_snoop.c:192-264 | a pair's count is the log's capped at 48 if and only if the table keeps enough of it |
| `SaQuery.SufficesInLog` | src/action_snoop.c:192-264 | enough is the newest in-window frames up to 48; in the log alone, kept if and only if the table was not crowded since any of those (if no two pairs share a stamp; with ties, that suffices) |
| `SaQuery.ExactIffActiveFit` | src/action_snoop.c:192-264 | the counts agree for every pair at every observation if and only if no more than 64 pairs were ever active in one window |
| `SaQuery.FloodFiresExactly` | src/action_snoop.c:244-264 | where the table keeps enough of every pair, for any threshold from 1 to 48, the detector fires exactly when the log holds a pair with that many frames in the window |
| `SaQuery.FloodEvidence` | src/action_snoop.c:266-286 | the newest `max` non-zero IDs among the very stamps the flood query counts for the pair, oldest first |
| `SaQuery.CitedWereCounted` | src/action_snoop.c:266-286 | each cited ID is that of a logged in-window frame of the pair, and there are no more than were counted |
| `SaQuery.EvidenceIsExact` | src/action_snoop.c:266-286 | where the table keeps enough of the pair the citation is the whole log's |
| `Mfp.ViolationIsHistory` | src/action_snoop.c:319-342 | a row's tally is the number of violations since it was created; its category is the first one's |
| `Mfp.Violations` | src/action_snoop.c:344-359 | the number of rows, and a row with the largest tally of any BSSID |
| `Mfp.OffendersAreListed` | src/action_snoop.c:319-336 | every BSSID offending in a window has a row if and only if there are at most 32 |
| `Csa.WalkAnnouncements` | src/action_snoop.c:497-508 | the element loop reads the last announcement, an operating class once read staying |
| `Csa.LastAnnouncementWins` | src/action_snoop.c:501-508 | the last announcing element decides channel, mode and count; the operating class is its own, or what earlier elements left |
| `Csa.EventRing.Observe` | src/action_snoop.c:451-476 | an announcement of channel 1 to 233 is appended to the log the ring retains, the BSSID standing for a missing transmitter; any other is refused |
| `Csa.EventRing.ObserveFrame` | src/action_snoop.c:484-520 | a Channel Switch frame appends what its elements announce, with addr2 as transmitter |
| `Csa.EventRing.DistinctTargets` | src/action_snoop.c:522-535 | the cardinality of the set of channels of the retained live events of the BSS |
| `Csa.TargetsAre` | src/action_snoop.c:522-535 | the targets of a BSS are the channels of its own stamped announcements in the window, and no other BSS adds to them |
| `Csa.TargetsAreExact` | src/action_snoop.c:522-535 | that set is the log's, if at most 128 announcements fall in the window |
| `Csa.TargetsAreLogged` | src/action_snoop.c:522-535 | it never contains a channel the log does not |
| `Csa.EventRing.Latest` | src/action_snoop.c:537-553 | the scan returns the slot the specification names |
| `Csa.LatestSlotIs` | src/action_snoop.c:537-553 | that slot holds an event of the BSS in the window, of the greatest stamp, the highest such slot; none exactly when no event of the BSS in the window is stamped after the epoch |
| `Csa.LatestIsNewest` | src/action_snoop.c:537-553 | for the ring: a retained live event of the greatest stamp |
| `Csa.LatestIsLastIff` | src/action_snoop.c:537-553 | whoever announced since, it is the BSS's last live announcement if and only if that one is stamped after the epoch and still retained, and no live one of its second is retained from the lap before; in a ring that has not wrapped the last two always hold |
| `Csa.LatestOtherwise` | src/action_snoop.c:537-553 | where such ones are retained it is the newest of them |
| `Csa.LatestNeedNotBeLast` | src/action_snoop.c:546-548 | 129 announcements in one second for which it is not |
| `Csa.EventRing.Snapshot` | src/action_snoop.c:555-568 | the newest 128 announcements, newest first |
| `Csa.EventRing.Clear` | src/action_snoop.c:577-583 | an empty ring with an empty log |
| `CsaWire.SilentFrame` | src/action_snoop.c:497-512 | a Channel Switch frame without an announcing element records nothing |
| `CsaWire.LastItemIsStored` | src/action_snoop.c:497-519 | a printed one records its last announcement: addr3 as BSS, addr2 as transmitter, its mode as 0 or 1, its channel if 1 to 233, its count, and its own or an earlier operating class |
| `CsaWire.ArgumentsAreStored` | src/action_snoop.c:451-476 | an announcement of octets is stored as given, the BSSID standing for a missing transmitter |
| `RrmWire.SsidCopyIs` | src/dot11_ie.c:39-48 | the SSID up to 32 octets and its first NUL, octet for octet, control octets as 63 |
| `Rrm.WalkSubelements` | src/action_snoop.c:684-695 | the inner walk keeps the last non-empty SSID, or none |
| `Rrm.TargetedIffNamed` | src/action_snoop.c:663-698 | a Beacon Request counts as targeted exactly when its subelement walk yields a non-empty SSID before it stops, and as broadcast when it is too short for one; channel and mode are the fourth and ninth octets, or 0 |
| `Rrm.RecogniseElem` | src/action_snoop.c:656-698 | the loop body classifies an element as the specification does |
| `Rrm.WalkElements` | src/action_snoop.c:651-714 | the outer walk records each recognised element as it is read, and answers whether there was one |
| `Rrm.ObserveFrame` | src/action_snoop.c:621-717 | a Radio Measurement frame appends one observation per recognised element, in order |
| `RrmWire.ObservationsOfEncode` | src/action_snoop.c:621-717 | each counted element of a printed request or report is one observation, in order, of the BSS and addr1 of a request or addr2 of a report; a group address in either makes none |
| `RrmWire.EncodeOfFrame` | src/action_snoop.c:621-717 | every request or report long enough for its fixed fields is such a printing |
| `RrmWire.ShortFrame` | src/action_snoop.c:644-652 | a shorter one records nothing |
| `Rrm.TallyIsHistory` | src/action_snoop.c:658-711 | a row's targeted, broadcast and report tallies split the elements recognised since it was created |
| `Rrm.LatestRequestShown` | src/action_snoop.c:702-709 | a row shows the SSID of its last targeted request, and the channel and mode of its last request of either kind |
| `Rrm.BusiestPair` | src/action_snoop.c:719-734 | the largest lifetime targeted count among rows seen in the window that reach the threshold |
| `Rrm.NamedWasSeen` | src/action_snoop.c:719-734 | the pair named has an observation in the window and at least `thresh` targeted requests in the log |
| `Rrm.RememberedInLog` | src/action_snoop.c:594-612 | in the log alone, if no two pairs share a stamp: no targeted request inside the window went with an evicted row if and only if the table was not crowded since any of them, and none from before it is still counted if and only if it was since each; with ties, not crowded suffices and overrun prevents it |
| `Rrm.LifetimeIsWindowedIff` | src/action_snoop.c:719-734 | with no bound on the pairs active: the lifetime count used is no less than the log's windowed count if and only if no targeted request of the pair inside the window went with an evicted row, and equal if and only if, besides, none of the row's life precedes the window; and the same two in the log alone |
| `Rrm.RemembersTargeted` | src/action_snoop.c:594-612 | none went while the pair's row is older than the window, whatever the other pairs did, nor of any pair if no more than 64 were ever active together |
| `Rrm.ActiveAreListed` | src/action_snoop.c:594-612 | every pair measured in a window has a row if and only if there are at most 64 |
| `Rrm.NeverMisses` | src/action_snoop.c:719-734 | a pair of which none went, with `thresh` targeted requests in the window by the log, is eligible at no less than that count |
| `Rrm.YoungRowIsExact` | src/action_snoop.c:719-734 | the count of a row whose `first_seen` is inside the window is never too large, and exact if and only if none went |
| `Rrm.PromiseIsKeptIff` | src/action_snoop.c:719-734 | the answer is the largest windowed count reaching the threshold, else 0, if and only if every forgotten pair that reaches it is covered by an eligible pair's lifetime count, and no pair is eligible or one of greatest lifetime count has no older targeted request (or a forgotten pair has that count in the window); where no pair is forgotten, if and only if no pair is eligible or one of greatest lifetime count has no older targeted request |
| `Rrm.OverReports` | src/action_snoop.c:719-734 | at the alert's threshold of 6: six requests long ago and a fresh report, nothing targeted in the window, and the pair is reported |
| `Rrm.UnderReports` | src/action_snoop.c:600-612 | at the same threshold: six requests in the window around one to each of 64 other stations, and the pair is not reported |
| `Rrm.Snapshot` | src/action_snoop.c:750-766 | the copy is the table sorted by targeted count |
| `Rrm.SnapshotIsStableOrder` | src/action_snoop.c:750-766 | a permutation of the table, descending, ties in table order |
| `BtmRequest.ParseFrame` | src/action_snoop.c:128-187 | the parser with its moving offset computes the specified request |
| `BtmRequest.SkipOptional` | src/action_snoop.c:157-166 | the offset moves past the optional fields exactly when both fit |
| `BtmRequest.WalkCandidates` | src/action_snoop.c:172-182 | the first 8 neighbour BSSIDs, and whether there were more |
| `BtmRequest.ParseOfEncode` | src/action_snoop.c:128-187 | for every request on the air (header of 24 or 28 octets, each mode bit by itself, the optional fields with theirs, any list of candidates and other elements, any overrunning tail) the parser returns the printed fields, the first 8 candidates' BSSIDs, truncation exactly beyond 8, and the imminent bit |
| `BtmRequest.EncodeOfParse` | src/action_snoop.c:128-187 | every frame the parser accepts is such an encoding |
| `Btm.Steering.RecordRing` | src/action_snoop.c:829-840 | the ring retains the newest 256 of the log extended by the request; this is the first kind of step of the protocol |
| `Btm.Steering.RecordRow` | src/action_snoop.c:849-887 | the table is that of its log extended by the request, the ring untouched; this is the second kind of step |
| `Btm.Steering.Observe` | src/action_snoop.c:842-888 | a usable request extends the ring's log and the table's log; another changes neither |
| `Btm.Steering.ObserveFrame` | src/action_snoop.c:439-441 | a frame extends both logs by the request it parses to, if usable |
| `Btm.Steering.Clear` | src/action_snoop.c:991-1000 | ring and table zeroed, both logs empty |
| `Btm.Steering.ForcingPair` | src/action_snoop.c:890-926 | a pair with the largest imminent count over all pairs, if it reaches the threshold, and that same pair's total; scoring each pair at its first live slot skips and repeats none |
| `Btm.Steering.SeenEarlier` | src/action_snoop.c:899-906 | whether an earlier live slot holds the same pair |
| `Btm.Steering.CountPair` | src/action_snoop.c:908-915 | the pair's imminent and total counts among the retained live events |
| `Btm.EventsCountRequests` | src/action_snoop.c:842-847 | what the ring's events count of a pair, imminent and in all, are the pair's logged requests in the window, with bit B2 of the Request Mode or not |
| `Btm.RingAndRowAgree` | src/action_snoop.c:842-887 | with all of the log in the window ring and row count alike |
| `Btm.ForcingIsExact` | src/action_snoop.c:890-926 | the answer is the whole log's, if at most 256 requests fall in the window |
| `Btm.ForcedNeverExceeds` | src/action_snoop.c:890-926 | in every case it counts no more than the log holds |
| `Btm.RingExactIff` | src/action_snoop.c:70-74 | every pair's total agrees with the log if and only if the window holds at most 256 requests |
| `Btm.ForcedExactIff` | src/action_snoop.c:70-74 | every pair's imminent count agrees with the log if and only if every imminent request in the window is among the newest 256 |
| `Btm.RingTooSmallForEveryPair` | src/action_snoop.c:70-74 | four requests to each of 128 stations in one second: the first station's are gone |
| `Btm.Steering.ForcingEvidence` | src/action_snoop.c:928-944 | the newest `max` non-zero IDs among the very events counted toward the threshold, oldest first |
| `Btm.CitedWereCounted` | src/action_snoop.c:928-944 | each cited ID is that of a logged imminent request of the pair in the window |
| `Btm.EvidenceIsExact` | src/action_snoop.c:928-944 | with at most 256 requests in the window the citation is the whole log's |
| `Btm.SteerIsHistory` | src/action_snoop.c:871-885 | a row counts its pair's accepted requests since it was created and shows the latest one, candidates replaced |
| `Btm.ActiveAreListed` | src/action_snoop.c:856-864 | every pair steered in a window has a row if and only if there are at most 128 |
| `Btm.Steering.Snapshot` | src/action_snoop.c:961-982 | the copy is the table sorted by `last_seen` |
| `Btm.SnapshotIsStableOrder` | src/action_snoop.c:961-982 | a permutation of the table, latest first, ties in table order |
| `Btm.RingLeadsByAtMostOne` | src/action_snoop.c:842-887 | in every state between the writer's two atomic steps the ring's history of a pair is the table's or one request ahead |
| `Btm.RowLagsByAtMostOne` | src/action_snoop.c:842-887 | so a live row's `req_count` and `imminent_count` are those of the ring's history of its pair since the row was created, or short of the one request in flight |
| `Action.Snoop.ObserveFrame` | src/action_snoop.c:376-442 | after any capture the 258 counters are what the frames captured since they were last cleared say, and every detector's log what all of them say |
| `Action.Snoop.Tally` | src/action_snoop.c:380-396 | exactly one of protected, a category with the total, or nothing is counted |
| `Action.Snoop.NoteViolation` | src/action_snoop.c:413-416 | a violation is noted for an individually addressed robust frame where protection is required, and for no other |
| `Action.Snoop.NoteSaQuery` | src/action_snoop.c:422-427 | an SA Query is noted for the station, whichever address is not the BSSID, unless it is a group |
| `Action.Snoop.DeepParse` | src/action_snoop.c:433-441 | each deep parser's log grows by its own observations of the frame, whichever branch is taken |
| `Action.Snoop.ObserveAnnouncement` | src/action_snoop.c:451-476 | the beacon path reaches the announcement ring and no counter |
| `Action.Snoop.Clear` | src/action_snoop.c:808-814 | the counters start again and the detectors keep what they hold |
| `Action.OneParser` | src/action_snoop.c:380-441 | a protected frame, or none, feeds no detector; each deep parser sees only its own category and action |
| `Action.BothDirectionsOnePair` | src/action_snoop.c:418-427 | an SA Query frame from the AP to a station and one back make one observation each, of the same pair |
| `Action.NoStation` | src/action_snoop.c:422-427 | no other frame makes one, nor one whose station is a group |
| `Action.EachCountsOnce` | src/action_snoop.c:380-396 | on a frame's octets: a protected Action frame adds one to that tally only, a readable one to the total and its own category only, any other nothing |
| `Action.MfpCountsFrames` | src/action_snoop.c:413-416 | a BSSID's logged violations are its individually addressed readable frames of any category but 4, 11 and 127 while its beacon requires protection |
| `Action.ExpelsIs` | src/action_snoop.c:128-187 | a frame parses to an imminent request of a pair if and only if it is a printed one from that BSS to that station with the bit |
| `Action.AnnouncementIsStored` | src/action_snoop.c:451-476 | an announcement from a beacon reaches the ring as given |
| `Action.SwitchIsStored` | src/action_snoop.c:433-437 | a Channel Switch frame captured reaches the ring as its last announcement |
| `Action.MeasurementIsStored` | src/action_snoop.c:438-438 | a Radio Measurement frame captured reaches the table as its counted elements |
| `Action.CountersAddUp` | src/action_snoop.c:45-57 | over any stretch of a capture, so since any clear, the 256 category counters sum to the total, and with the protected tally to every Action frame recognised |
| `Action.SaqCountsFrames` | src/action_snoop.c:422-427 | counting a pair's stamps in the log is counting its SA Query frames in the capture, by category and the three addresses |
| `Action.BtmCountsFrames` | src/action_snoop.c:439-441 | counting a pair's forcing requests in the log is counting its forcing frames in the capture, as printed |
| `Action.FloodVerdictOnCapture` | src/action_snoop.c:244-264 | end to end, under a non-decreasing clock and where the table keeps enough of every pair (as with at most 64 active): the SA Query detector fires, for thresholds 1 to 48, exactly when some pair has `thresh` readable SA Query frames in the capture's window |
| `Action.ForcingVerdictOnCapture` | src/action_snoop.c:890-926 | end to end, where every imminent request in the window is among the newest 256 accepted: the forcing count is the largest number of imminent requests any pair was sent, as the frames show |
| `Action.FloodEvidenceOnCapture` | src/action_snoop.c:266-286 | end to end, under the same condition: the SA Query citation is the non-zero retained IDs of the newest 48 counted frames of the capture, oldest first |
| `Action.ForcingEvidenceOnCapture` | src/action_snoop.c:928-944 | end to end, likewise: the steering citation is the non-zero retained IDs of the frames that force the pair |
| `Fnv.Run` | src/alert_key.c:9-13 | the loop computes the fold of the rounds |
| `Fnv.RoundIsBijective` | src/alert_key.c:6-13 | one round is a bijection of the 64-bit state for each octet, and separates octets for each state |
| `Fnv.HashKeepsApart` | src/alert_key.c:9-13 | different states stay different through any common suffix |
| `Fnv.OneByteApart` | src/alert_key.c:9-13 | strings of one length differing in exactly one octet never share a hash |
| `Text.BeforeIsTotal` | src/alert_key.c:129-134 | strcmp is a strict total order |
| `Text.LessMeans` | src/alert_key.c:129-134 | the first differing character decides, and an end comes before any character |
| `Text.DecimalInjective` | src/alert_key.c:63-68 | distinct numbers print differently |
| `Text.DecimalReads` | src/alert_key.c:63-68 | a decimal spells its number, without leading zeros |
| `Text.HexReads` | src/alert_key.c:28-32 | n hexadecimal digits spell the number that fits them |
| `Text.HexBytesInjective` | src/alert_key.c:76-83 | distinct octet strings print differently |
| `Text.MacTextInjective` | src/alert_key.c:55-61 | distinct addresses print differently |
| `AlertKey.EncodingIs` | src/alert_key.c:55-142 | the appends of each component join to a separator and its documented body |
| `AlertKey.KeyIsExact` | src/alert_key.c:18-53 | the key is exactly the concatenation of its components when all are admissible and it fits with its terminator, and empty otherwise |
| `AlertKey.OverflowSticks` | src/alert_key.c:18-24 | a poisoned builder writes nothing more |
| `AlertKey.PartialComponentIff` | src/alert_key.c:15-24 | an overflowing component leaves part of itself in the buffer exactly when its separator fitted |
| `AlertKey.PartialComponentStays` | src/alert_key.c:15-24 | an input for which it does: with 6 octets of room, rule `a` and two octets in hex leave `a:01` behind the overflow mark |
| `AlertKey.ComponentSizes` | src/alert_key.h:18-25 | the documented size of every component type |
| `KeyIdentity.DecodeFirst` | src/alert_key.c:55-123 | an encoding can be read from its front in one way only |
| `KeyIdentity.OuterBody` | src/alert_key.c:55-142 | the colons a component brings outside brackets are fixed by its type, and by whether an address takes the fallback |
| `KeyIdentity.CrossedForms` | src/alert_key.c:106-123 | an address before a fallback never reads as a fallback before anything: 16 digits of a hash have the shape of an address |
| `KeyIdentity.DecodeTail` | src/alert_key.c:55-142 | equal tails of one schema agree in every value |
| `KeyIdentity.RulesNeverCollide` | src/alert_key.c:45-53 | equal keys have equal rules, under any schemas |
| `KeyIdentity.ForgeableIff` | src/alert_key.c:109-123 | which addresses are forgeable: no address, longer than 24 octets, the first 24 of them address characters but colons |
| `KeyIdentity.MixedFirst` | src/alert_key.c:109-123 | an address reads as a fallback only if that is forgeable, and only as its readable part |
| `KeyIdentity.ShieldIsNoHash` | src/alert_key.c:55-142 | a number, an address or a set never begins as a hash does |
| `KeyIdentity.KeysDecodeUniquely` | src/alert_key.c:45-142 | two keys of one schema are equal if and only if the rule and every value agree, remote strings, sets and fallbacks by readable part and hash: while no address is forgeable, or each that is stands last or before a number, an address or a set, or the addresses stand together, or take the same forms in both |
| `KeyIdentity.FallbackForgesBoundary` | src/alert_key.c:106-123 | every forgeable address gives two findings of one schema that differ in every component and share a key |
| `KeyIdentity.ForgesIff` | src/alert_key.c:106-123 | an address is forgeable if and only if some two differing findings of one schema, with no other forgeable address, share a key |
| `KeyIdentity.FirstDifferenceSeparates` | src/alert_key.c:45-142 | whatever their schemas, keys that agree up to a component of one type and form in which they differ are different keys |
| `KeyIdentity.TokensSeparate` | src/alerts/rules_camera.c:169-176 | so a token keeps apart the schemas a rule chooses between, whatever follows it |
| `KeyIdentity.NumberIsNoToken` | src/ble_detect.c:110-111 | a token that does not spell a number keeps its key apart from one with a number in its place |
| `KeyIdentity.RemotesNeverMerge` | src/alert_key.c:92-104 | remote strings of one length differing in one octet, even past `keep`, never give one key, in any position behind the same components, whatever those are and whatever follows |
| `KeyIdentity.SetHashesDiffer` | src/alert_key.c:125-142 | sets whose sorted members agree but for one octet of one member, at any place, have different hashes |
| `KeyIdentity.SetsNeverMerge` | src/alert_key.c:125-142 | so they make different components and never one key, behind any common components and whatever follows |
| `KeyForms.TextSpellsValue` | src/alert_key.h:18-25 | every component's text spells its value: octets and numbers in digits, tokens as they are, hashes in 16 digits behind the readable part or the count |
| `KeyForms.QuadStandsBare` | src/alert_key.h:17 | an IPv4 address stands bare in a key |
| `KeyForms.GroupsStandBracketed` | src/alert_key.h:17 | an IPv6 address of at most 45 octets stands in brackets |
| `KeyForms.TokenIs` | src/alert_key.c:34-43 | a token is 1 to 32 letters, digits, dots, dashes and underscores |
| `KeyForms.AddressIs` | src/alert_key.c:109-116 | an address is 1 to 45 hexadecimal digits, dots and colons |
| `KeyForms.VisibleIs` | src/alert_key.h:26-28 | which octets of a remote string are kept and which become an underscore |
| `KeyForms.InadmissibleLeavesNone` | src/alert_key.c:70-74 | a token of other characters or lengths, or a set of more than 64, leaves no key |
| `KeyForms.HashOfA` | src/alert_key.c:6-13 | the published FNV-1a value of one string, which fixes both constants and the order of the operations |
| `AlertKey.SetIsOrderIndependent` | src/alert_key.c:125-142 | the set component is the same for every order of its members |
| `AlertKey.SetStreamIsExact` | src/alert_key.c:135-138 | the bytes hashed agree if and only if the multisets of members do |
| `KeyBuilder.Builder.constructor` | src/alert_key.c:45-53 | the buffer starts as the specified one, poisoned by a bad rule or no room |
| `KeyBuilder.Builder.Append` | src/alert_key.c:18-24 | all of a string or none of it, always terminated |
| `KeyBuilder.Builder.Address` | src/alert_key.c:55-61 | appends an address component to the key being built |
| `KeyBuilder.Builder.Number` | src/alert_key.c:63-68 | appends a decimal component |
| `KeyBuilder.Builder.Token` | src/alert_key.c:70-74 | appends a token component, poisoning the key when it is not one |
| `KeyBuilder.Builder.Raw` | src/alert_key.c:76-83 | appends a hex component; stopping at the first overflow changes nothing |
| `KeyBuilder.Builder.Remote` | src/alert_key.c:92-104 | appends the sanitised prefix and the hash of the whole string |
| `KeyBuilder.Builder.Ip` | src/alert_key.c:109-123 | appends an address, bracketed if it has colons, or falls back to a remote component |
| `KeyBuilder.Builder.Members` | src/alert_key.c:125-142 | appends the count and hash of the sorted members, poisoning the key beyond 64 |
| `KeyBuilder.Builder.End` | src/alert_key.c:144-148 | the C string left in the buffer is the specified key |
| `KeyBuilder.IsToken` | src/alert_key.c:34-43 | accepts exactly the strings of 1 to 32 token characters |
| `KeyBuilder.ScanIp` | src/alert_key.c:109-116 | accepts exactly the address-shaped strings, and says whether they contain a colon |
| `KeyBuilder.Sanitise` | src/alert_key.c:92-99 | the readable part, at most `keep` octets and never more than 256 |
| `KeyBuilder.HashMembers` | src/alert_key.c:125-138 | sorting and hashing member by member gives the hash of the canonical stream |
| `KeyBuilder.SortMembers` | src/alert_key.c:127-134 | the in-place sort of the member copy gives the canonical order |
| `Coverage.WorseIsTotal` | research/coverage.c:10-14 | the reading order leaves only equal ranks tied |
| `Coverage.Table.Snapshot` | research/coverage.c:16-101 | the table holds the grouped rows sorted worst first, and the selection is clamped into it: unmoved if it was inside, the last row if beyond, 0 if negative |
| `Coverage.Table.Count` | research/coverage.c:31-83 | one alert finds, makes or is refused its row |
| `Coverage.Table.Locate` | research/coverage.c:31-37 | the search loop finds the first row of the kind |
| `Coverage.Table.Ratio` | research/coverage.c:103-115 | how many rows have a basis, and how many of those a document |
| `Coverage.GroupConserves` | research/coverage.c:22-83 | rows are the first 32 distinct named kinds in alert order, each with every occurrence of its kind at its worst severity |
| `Coverage.FiredIsSum` | research/coverage.c:82 | alerts of positive counts add up to the sum of their counts |
| `Coverage.FiredCountsAlerts` | research/coverage.c:82 | alerts without one count once each |
| `Coverage.TotalIsSum` | research/coverage.c:82 | and likewise the total over the named alerts |
| `Coverage.RowsAreLabelled` | research/coverage.c:39-82 | a row is titled by the first alert of its kind to reach its severity, and carries at most 8 documents and whether there were more |
| `Coverage.TakesIff` | research/coverage.c:38-39 | a named alert is refused exactly when 32 other kinds came first |
| `Coverage.TotalIsConservedIff` | research/coverage.c:22-83 | nothing is counted twice, and nothing is lost if and only if at most 32 kinds fired |
| `Coverage.ShownWorstFirst` | research/coverage.c:85-95 | what is shown is a permutation of the rows: graver first, then the more frequent, then by name |
| `Coverage.CoverageIgnoresOrder` | research/coverage.c:10-95 | with at most 32 kinds every order of the alerts shows the same kinds, severities and counts |
| `Coverage.OrderMattersBeyond` | research/coverage.c:38-39 | with more, some order of the same alerts shows another table |
| `Coverage.OrderIndependentIff` | research/coverage.c:10-95 | the kinds, severities and counts shown are the same for every order of the alerts if and only if at most 32 kinds fired |
| `Coverage.LongKindSplits` | research/coverage.c:32-44 | a kind of 48 characters or more would take two rows |

## Left out

- `dot11_frame_decode`: only what a management frame needs (type, flags, header of 24 or 28 octets, three addresses); other frame types are rejected before anything else is read.
- `beacon_find_mfp` and the alert type tables: the beacon's MFP state, a kind's technique and the corpus hits are parameters.
- The parse-fault tally (`sh_parse_fault_note`), which no detector reads.
- Mutexes: each locked region is one atomic step; only the two regions of `btm_observe` are modelled as interleaving.
- Row structs are values in an array: assignments to several fields of one row are one assignment of the updated row, and the parallel `ts` and `ev` arrays of an SA Query row are one sequence of pairs.
- The joint reset of tests, which clears every module at once; the counters, tables and rings have their own clears.
- `rrm_find`, `btm_find` and the count accessors, which copy one row or one field out.
- Titles, URLs and dates of coverage documents; only their number and its truncation are kept.
- NULL frames, BSSIDs, outputs and states in `src/action_snoop.c`, for which each entry point returns at once.
- NULL pointers in `src/alert_key.c`: a NULL string behaves as an empty one and a NULL buffer as an empty one; a NULL item array with a positive count is not modelled.
- `int` overflow of counters and of `now - ts`; the hash is modelled with its 64-bit wrap-around.
- KeyIdentity.KeysDecodeUniquely: of the schemas in which a forgeable address stands before a token, a hex string or a remote string and another address follows later, only keys of the same forms are covered; `KeyIdentity.FallbackForgesBoundary` shows why.
- Lru.KeptIffNotCrowded: where two keys share a stamp, eviction between equally stale rows goes by slot, which the log does not show; there the lemma gives a sufficient and a preventing condition.
- Coverage.GroupConserves: kinds are assumed shorter than 48 characters, as every name in `include/sloth_alerts.def` is; `Coverage.LongKindSplits` shows why.
