# Verified model of the route distribution core

The program keeps BGP routers supplied with the addresses their users selected.
Feeds are parsed into prefixes, catalog modes merge include and exclude feeds,
filters cut the result per user, and a speaker keeps every router's table equal
to the user's desired set. This project models the parts of that chain where the
result depends on arithmetic, on byte formats or on long runs of small steps, and
proves what each part is for.

* **Prefix algebra** (`Blocks`, `Ranges`, `Sorting`, `Canonical`, `Aggregate`,
  `Normalization`, `Filter`, `Exclude`, `Coverage`, `Float64`). A prefix is an aligned
  power-of-two block of a 32- or 128-bit space and a list denotes a set of
  addresses. Masks, shifts and bit tests are defined by halving. *Canonical*
  lists (disjoint, and absorbing every block of their address set) are the
  shortest and unique; aggregation, hole punching and the exclude set all
  produce them. Percentages are rounded to 53 significant bits, as the code does.
* **Wire format** (`Octets`, `Wire`, `WireBytes`). Encoders and decoders of OPEN,
  UPDATE, KEEPALIVE, NOTIFICATION and ROUTE-REFRESH, their round trips, and the layout
  spelled out byte by byte, following section 4 of RFC 4271, sections 3 and 4 of
  RFC 4760, section 3 of RFC 6793, section 3 of RFC 8092 and section 3 of RFC 2918.
* **Delivery** (`Lists`, `Packing`, `Peer`, `PeerSession`, `Manager`). Grouping
  and chunking of routes, one peer's resync with writes that may fail after any
  message, the session protocol with the router's table as ghost state, and the
  manager's announce cache.
* **Rule sets** (`SrsFraming`, `SrsRules`, `SrsParser`, `SrsFormat`). A reference
  decoder to rule trees, the meaning of a tree, what is extracted from it, the streaming
  parser with its skip paths and short-circuits, and a writer of the format whose
  files are proved to be read back.
* **Store** (`History`, `HistoryReader`, `ModeView`, `CatalogStore`, `Alerts`,
  `AlertChecker`, `Communities`, `CommunityStore`, `UserImport`). Tables are maps
  and sets, a transaction is one step: reconstruction of past selections from the
  audit trail, the materialised mode view, alert episodes with delivery,
  community numbering, and import under a uniqueness constraint.

A recurring shape: a method follows the source's loop and is proved equal to a
recursive specification function, and lemmas say what that function means. The
protocol, history and alert models are state machines whose `Inv` holds at the
start and is kept by every step, so the run theorems hold for runs of any length.

`dafny verify dfyconfig.toml` checks everything.

## Findings

Properties the code does not have for all inputs. Each is shown with an input and
with the exact condition under which it does hold.

| source | property | shown to fail by | holds exactly when |
|---|---|---|---|
| internal/prefixfilter/filter.go:56 | filtering returns (input and allow) minus deny | `Filter.ApplyOvershootHappens`, `Filter.ApplyOvershoots`: a wider allow prefix with the same start as a route is returned whole | `Filter.ApplyExactIff`: such allow prefixes hold only routed or denied addresses |
| internal/store/routes.go:167 | every filtered prefix takes its details from a route | the same run: the result matches no route and silently gets none | `Filter.MatchedIff`, without deny entries `Filter.MatchedIffNoOvershoot` |
| internal/web/cidr_debug.go:171 | a service filed as full covers the whole target | `Coverage.AlmostFull`, `Coverage.AlmostFullHappens`: all of a /64 but its last address | `Coverage.FullTellsIff`: the target has at most 2^53 addresses; per count `Float64.HundredIff` |
| internal/bgp/peer_routes.go:48 | after failed attempts a successful resync leaves the router with the desired set | `PeerSession.DroppedAfterFailureStays`: two routes in two messages, the socket fails in between, the first route is dropped before the retry | `PeerSession.RetryServesIff`: every prefix an attempt announced is still desired or was recorded as sent before; so always for an unchanged set (`PeerSession.RetryConverges`) |
| internal/bgp/wire_decode.go:383 | decoding an AS_PATH returns the first number of its first segment | `WireBytes.SecondSegmentMisread`: 65001 in two bytes, then a second segment of one number, is read as 4259905793 | `WireBytes.FourOctetPath`: always for four-octet numbers; `WireBytes.FirstNumberIff`: for two-octet ones, less follows than the segment holds, or the four bytes read are zero |
| internal/bgp/manager.go:347 | a failed update leaves the announce cache true | `Managers.FailedChangeStrands`: the empty entry it writes makes reconciling skip a peer that stores a set | `Managers.Manager.ChangePeer`: the list never reached the listener, or the peer stores nothing |
| internal/bgp/manager.go:133 | a successful start leaves every enabled peer storing its desired set | `Managers.LeftoverSkipsPeer`: an entry left by a start that failed on a later user | per peer `Managers.EntryMustBeTrue` with nothing stored: there is no entry, or it is empty |
| internal/store/communities.go:49 | generated numbers are the positional ones | `Communities.LargeIsOff`: the first category with more than 9999 services | `Communities.PositionalIffSmall`: no category has more |
| internal/store/config_snapshot.go:503 | importing community numbers is accepted exactly when the merged numbering has no duplicate | `CommunityStore.RepeatedPairRefused`: one pair has 100, the list gives another pair 100 and then 200 | `CommunityStore.MergeTellsIff`: the list on its own is accepted and supersedes none of its numbers, or contradicts itself; so for every list naming each pair once (`CommunityStore.DistinctPairsTell`) |

## Model

| member | source | states |
|---|---|---|
| Aggregate.Aggregate | internal/prefixfilter/aggregate.go:16-34 | for every prefix list the result denotes exactly the addresses of the valid inputs, in order, as disjoint aligned blocks; no block list with the same addresses is shorter, and any as short has the same blocks |
| Aggregate.AggregateFamily | internal/prefixfilter/aggregate.go:44-80 | one family: sorting, in-place merge and greedy cut together give the canonical list of the same addresses |
| Aggregate.MergeInPlace | internal/prefixfilter/aggregate.go:61-73 | the merge that writes into the array it is still reading leaves the same runs as merging into a separate list |
| Aggregate.MergedIsRuns | internal/prefixfilter/aggregate.go:55-73 | merging sorted ranges, in any order among equal starts, gives maximal runs with a gap between any two, and loses or adds no address |
| Aggregate.TrailingZeroBits | internal/prefixfilter/aggregate.go:136-143 | the count is the largest alignment of the value within the address width |
| Aggregate.LargestAt | internal/prefixfilter/aggregate.go:95-126 | each step takes the largest aligned block at the current address that ends within the range |
| Aggregate.NoStraddle | internal/prefixfilter/aggregate.go:95-126 | no aligned block of the range starting inside an emitted block reaches beyond it |
| Aggregate.RangeToPrefixes | internal/prefixfilter/aggregate.go:95-131 | the greedy cut tiles the range without gap or overlap, and every aligned block of the range lies inside one emitted block |
| CanonicalLists.MinimalIsUnique | internal/prefixfilter/aggregate.go:9-16 | the minimal set is one set: whatever list denotes the addresses of a canonical list and is no longer consists of the same blocks |
| CanonicalLists.SameInputSameResult | internal/prefixfilter/aggregate.go:16-34 | inputs with the same addresses aggregate to the same list, element by element |
| Normalization.NormalizeSimple | internal/prefixfilter/filter.go:167-193 | parent look-up keeps exactly the prefixes that no earlier one contains |
| Normalization.ParentAccepted | internal/prefixfilter/filter.go:172-186 | some shorter mask of the prefix is in the accepted set if and only if an accepted prefix contains it |
| Normalization.NormalizeWithTrie | internal/prefixfilter/filter.go:196-289 | the binary trie keeps exactly the same prefixes in the same order as the simple algorithm |
| Normalization.Trie.Covered | internal/prefixfilter/filter.go:214-250 | the walk down the bits finds a stored prefix containing the query if and only if there is one |
| Normalization.Trie.Insert | internal/prefixfilter/filter.go:252-285 | insertion adds one prefix to what the linked nodes hold and keeps the trie well formed |
| Normalization.NormalizeSorted | internal/prefixfilter/filter.go:142-164 | below and above the size threshold the result is the same sequence |
| Normalization.OutermostMembers | internal/prefixfilter/filter.go:167-193 | in parent-first order what survives is exactly what no other element contains |
| Normalization.OutermostSplit | internal/prefixfilter/filter.go:150-164 | splitting by family and concatenating the two results changes nothing |
| Normalization.Normalize | internal/prefixfilter/filter.go:112-165 | the result is the sorted, duplicate-free list of the outermost masked prefixes; invalid ones are dropped |
| Normalization.NormalFormFacts | internal/prefixfilter/filter.go:112-165 | a normal form denotes the same addresses as the input, is an antichain of disjoint blocks and is no longer than the input |
| Normalization.NormalFormUnique | internal/prefixfilter/filter.go:112-165 | the normal form is determined by the input set, whichever algorithm produced it |
| Filter.Children | internal/prefixfilter/filter.go:98-110 | the two halves meet exactly in the middle of the block |
| Filter.Subtract | internal/prefixfilter/filter.go:66-96 | the branches and the descending loop compute the reference subtraction |
| Filter.SubtractionExact | internal/prefixfilter/filter.go:66-96 | the fragments are the fewest blocks denoting the prefix without the hole; the list is the prefix itself if and only if the two do not overlap |
| Filter.PunchAllExact | internal/prefixfilter/filter.go:21-35 | subtracting a deny list leaves exactly the other addresses, disjoint, each piece inside an original, and canonical if the start was |
| Filter.PermittedSpace | internal/prefixfilter/filter.go:52-61 | one input and one allow prefix give their intersection, except that a wider allow prefix with the same start is kept whole |
| Filter.PairsSpace | internal/prefixfilter/filter.go:49-63 | all pairs together denote the intersection of the lists plus exactly the overshooting allow prefixes |
| Filter.Intersect | internal/prefixfilter/filter.go:38-64 | the result is the normal form of the permitted pairs of the two normalised lists, or of the input when nothing is listed |
| Filter.PunchDenied | internal/prefixfilter/filter.go:21-35 | fails if and only if some intermediate list would exceed the limit, else every deny entry has been subtracted |
| Filter.ApplyFailsIff | internal/prefixfilter/filter.go:26-37 | a run fails if and only if after some number of the deny entries the list is longer than the limit, 65536 if none is given |
| Filter.Apply | internal/prefixfilter/filter.go:16-36 | a result is disjoint, within the limit and free of denied addresses; the whole outcome is tied to the normal forms it depends on |
| Filter.ApplyOvershoots | internal/prefixfilter/filter.go:52-61 | for any route and wider allow prefix with the same start, a whole run returns the allow prefix, which is not the allowed part of the route and is matched by no route |
| Filter.ApplyOvershootHappens | internal/prefixfilter/filter.go:52-61 | the run on 0.0.0.0/24 with the allow list 0.0.0.0/8 succeeds with 0.0.0.0/8, unmatched |
| Filter.ApplyDenotes | internal/prefixfilter/filter.go:16-36 | a successful run is an antichain within the limit denoting the intersection and the overshoot without the denied addresses; no denied address survives for any allow list |
| Filter.ApplyExactIff | internal/prefixfilter/filter.go:52-61 | the result is exactly (input and allow) minus deny if and only if every overshooting allow prefix holds only routed or denied addresses |
| Filter.OvershootHappens | internal/prefixfilter/filter.go:56-57 | a concrete pair where the kept allow prefix adds an address outside the input |
| Filter.ApplyKeepsRoutes | internal/prefixfilter/filter.go:16-64 | without overshoot every result prefix lies inside one valid input route |
| Filter.FindBestMatch | internal/store/routes.go:179-204 | finds a route if and only if one contains the needle, and then the first of the longest |
| Filter.FilteredIsMatched | internal/store/routes.go:143-171 | without overshoot every filtered prefix is attributed to a route |
| Filter.MatchedIff | internal/store/routes.go:143-171 | every filtered prefix is attributed to a route if and only if what the deny list leaves of each overshooting allow prefix lies inside an input prefix |
| Filter.MatchedIffNoOvershoot | internal/store/routes.go:143-171 | without deny entries: if and only if nothing overshoots |
| Exclude.ExcludeSet.constructor | internal/prefixfilter/exclude.go:22-34 | each family is disjoint and in address order, and the set denotes the addresses given |
| Exclude.ExcludeSet.Subtract | internal/prefixfilter/exclude.go:45-79 | the fragments are the fewest blocks denoting the prefix minus every exclude; changed if and only if the prefix shares an address with the excludes, and unchanged means the masked prefix alone |
| Exclude.FirstAfter | internal/prefixfilter/exclude.go:55-61 | binary search splits the excludes at the end of the prefix |
| Exclude.ScanFrom | internal/prefixfilter/exclude.go:63-78 | the backward scan punches out exactly one contiguous run of excludes, and stops where nothing earlier reaches the prefix or nothing is left |
| Exclude.ScanExact | internal/prefixfilter/exclude.go:45-79 | stopping there agrees with subtracting every exclude |
| Exclude.LastAddr | internal/prefixfilter/exclude.go:82-89 | setting the host bits one by one gives the last address of the block |
| Coverage.CoveredCount | internal/web/cidr_debug.go:331-360 | for ranges in any order with any overlap the count is the number of distinct addresses in their union |
| Coverage.SweepSorted | internal/web/cidr_debug.go:341-360 | the sweep over sorted ranges adds up each merged stretch once |
| Coverage.CoveragePercentage | internal/web/cidr_debug.go:331-368 | the percentage is that count over the target size times a hundred, each step rounded to double precision, capped at 100 |
| Coverage.FullIffAllCovered | internal/web/cidr_debug.go:325-368 | for ranges cut to the target the count reaches the target size if and only if every address is covered |
| Coverage.Lookup | internal/web/cidr_debug.go:147-176 | the loop over the catalog cuts each prefix to the target, skipping default routes and the other family, and files the service as absent, partial or full |
| Coverage.CoveredFacts | internal/web/cidr_debug.go:147-176 | the count over the cut catalog prefixes is complete if and only if they cover the target, and zero if and only if they miss it |
| Coverage.StandingFacts | internal/web/cidr_debug.go:165-176 | a service is absent if and only if it covers nothing, and filed as full if and only if at most the slack of the rounding is missing |
| Coverage.FullTellsIff | internal/web/cidr_debug.go:361-367 | filed as full means covered, for every catalog, if and only if the target has at most 2^53 addresses |
| Coverage.AlmostFull | internal/web/cidr_debug.go:361-367 | above that size the catalog of everything but the last address is filed as full |
| Coverage.AlmostFullHappens | internal/web/cidr_debug.go:361-367 | that is so for every IPv6 /64 |
| Float64.HundredIff | internal/web/cidr_debug.go:361-367 | over 2^h addresses the rounded percentage is 100 exactly from 2^(h-54) below the full count on, and only at the full count up to h = 53 |
| Float64.TellsIff | internal/web/cidr_debug.go:361-367 | a rounded 100 means the full count, for every count, if and only if there are at most 2^53 addresses |
| Float64.ZeroIff | internal/web/cidr_debug.go:361-367 | the percentage is zero only for an empty count |
| Float64.RoundNearest | internal/web/cidr_debug.go:361-367 | rounding is to the nearest of the numbers with 53 significant bits, ties to even |
| Float64.SmallIsExact | internal/web/cidr_debug.go:361-367 | over at most 2^46 addresses, so for every IPv4 target, the percentage is exact |
| Coverage.IntersectRanges | internal/web/cidr_debug.go:325-329 | the range holds exactly the common addresses, and the flag says whether there are any |
| Wire.StreamRoundTrip | internal/bgp/wire_decode.go:35-73 | reading a whole concatenated stream of messages gives them back in order |
| Wire.MessageRoundTrip | internal/bgp/wire_decode.go:35-73 | one message off the front of a stream comes back, whatever follows it stays |
| Wire.OpenRoundTrip | internal/bgp/wire_decode.go:90-148 | OPEN with its four capabilities comes back with the flags they set |
| Wire.UpdateRoundTrip | internal/bgp/wire_decode.go:151-195 | the two length fields separate withdrawn routes, attributes and NLRI whatever these contain |
| Wire.AttributesRoundTrip | internal/bgp/wire_decode.go:210-301 | every list of attributes decodes to itself, across the switch to two-byte lengths |
| Wire.FrameOfTlv | internal/bgp/wire_decode.go:210-249 | an encoded attribute is framed to exactly its own bytes at either length form |
| Wire.MpReachRoundTrip | internal/bgp/wire_decode.go:304-340 | MP_REACH_NLRI keeps its next hop and prefixes |
| Wire.MpUnreachRoundTrip | internal/bgp/wire_decode.go:344-360 | MP_UNREACH_NLRI keeps its prefixes |
| Wire.ASPathRoundTrip | internal/bgp/wire_decode.go:365-394 | two- and four-octet AS paths both decode to the number written |
| Wire.CommunitiesRoundTrip | internal/bgp/wire_encode.go:250-260 | large communities come back in order |
| Wire.PrefixesRoundTrip | internal/bgp/wire_decode.go:398-432 | zero-padded prefixes of a family decode to themselves |
| Wire.PrefixesReencode | internal/bgp/wire_encode.go:47-77 | re-encoding any accepted NLRI bytes reproduces them byte for byte, stray host bits included |
| Wire.RoundTripIffPadded | internal/bgp/wire_decode.go:398-432 | a prefix survives the trip if and only if the bytes past its last significant byte are zero |
| Wire.UnknownAttributeIgnored | internal/bgp/wire_decode.go:253-301 | an unknown attribute, in either form of its length, between complete ones changes nothing, not even which errors are reported |
| Wire.UnknownAttributeInUpdate | internal/bgp/wire_decode.go:151-195 | inserting one leaves the decoded UPDATE as it was |
| Wire.FramedSplit | internal/bgp/wire_decode.go:210-249 | complete attributes decode on their own, whatever follows them |
| Wire.EncodePathAttribute | internal/bgp/wire_encode.go:9-26 | the buffer filled byte by byte is the attribute in its short or extended form |
| Wire.EncodePathAttributes | internal/bgp/wire_encode.go:29-44 | copying at a moving offset gives the concatenation of all attributes |
| Wire.EncodePrefixes | internal/bgp/wire_encode.go:47-77 | the two passes, size then copy, give the concatenation of all prefixes |
| Wire.WrapMessage | internal/bgp/wire_encode.go:80-96 | sixteen marker bytes, total length, type, body |
| Wire.SerializeUpdate | internal/bgp/wire_encode.go:156-178 | the filled buffer is the specified UPDATE, which the laws of `WireBytes` spell out byte by byte |
| Wire.DecodePrefixBytes | internal/bgp/wire_decode.go:398-432 | the reslicing loop agrees with the reference decoder on every input, errors included |
| Wire.DecodePathAttributes | internal/bgp/wire_decode.go:210-249 | the reslicing loop agrees with the reference decoder on every input, errors included |
| Wire.DecodeOpenBody | internal/bgp/wire_decode.go:90-148 | the nested parameter and capability loops agree with the reference decoder on every input |
| WireBytes.ASPathBytes | internal/bgp/wire_encode.go:232-247 | an AS_PATH is one AS_SEQUENCE of one number, in four bytes if and only if the number needs them or the session has four-octet numbers, each byte given |
| WireBytes.OriginBytes | internal/bgp/wire_encode.go:197-199 | the bytes of an ORIGIN |
| WireBytes.NextHopBytes | internal/bgp/wire_encode.go:202-205 | the bytes of a NEXT_HOP |
| WireBytes.TlvHeaded | internal/bgp/wire_encode.go:9-26 | flags, type and length of an attribute, the extended-length bit set exactly when the length takes two bytes |
| WireBytes.MpReachBytes | internal/bgp/wire_encode.go:208-219 | MP_REACH_NLRI is optional type 14: IPv6 unicast, next hop with its length, a zero byte, prefixes |
| WireBytes.MpUnreachBytes | internal/bgp/wire_encode.go:222-229 | MP_UNREACH_NLRI is optional type 15: IPv6 unicast, prefixes |
| WireBytes.CommunityBytes | internal/bgp/wire_encode.go:250-260 | large communities are optional transitive type 32, three four-byte numbers each |
| WireBytes.PrefixBytes | internal/bgp/wire_encode.go:47-77 | a prefix is its length in bits and as few address bytes as hold that many |
| WireBytes.MessageBytes | internal/bgp/wire_encode.go:80-96 | marker, whole length, type number and body of every message |
| WireBytes.OpenBytes | internal/bgp/wire_encode.go:103-153 | every byte of an OPEN body, the 22 parameter bytes with their four capabilities included |
| WireBytes.UpdateBytes | internal/bgp/wire_encode.go:156-178 | an UPDATE body is withdrawn routes and attributes, each after its two-byte length, then the announced prefixes |
| WireBytes.AcceptedFrame | internal/bgp/wire_decode.go:11-73 | whatever message is read off a stream was framed with marker, length and type, and its body decodes; nothing else is taken |
| WireBytes.AcceptedUpdate | internal/bgp/wire_decode.go:151-195 | an accepted UPDATE body is exactly its three parts with the two lengths |
| WireBytes.FramedIff | internal/bgp/wire_decode.go:210-242 | an attribute is framed in the short form, or in the long one whatever its length, if and only if all of it is there |
| WireBytes.FourOctetPath | internal/bgp/wire_decode.go:365-394 | of a path with four-octet numbers, set or sequence, the first is read, whatever follows |
| WireBytes.TwoOctetPath | internal/bgp/wire_decode.go:365-394 | of a path with two-octet numbers the first is read as long as less follows than the segment holds; else four bytes are read as one number |
| WireBytes.FirstNumberIff | internal/bgp/wire_decode.go:380-389 | the first number of a two-octet path is read if and only if less follows its first segment than that segment holds, or the four bytes read are zero |
| WireBytes.SecondSegmentMisread | internal/bgp/wire_decode.go:380-389 | a two-octet path 65001 followed by a second segment of one number is read as 4259905793 |
| WireBytes.RefusedPath | internal/bgp/wire_decode.go:365-394 | a path is refused if and only if its kind is unknown, it is empty, or too short for two bytes a number |
| WireBytes.LinkLocalHop | internal/bgp/wire_decode.go:315-326 | of a global and a link-local next hop the global one is read |
| WireBytes.CapabilitiesMean | internal/bgp/wire_decode.go:104-146 | from any list of capabilities, a cut-off rest ignored, IPv6 unicast and four-octet numbers are seen if and only if some capability announces them |
| WireBytes.LastNumberCounts | internal/bgp/wire_decode.go:119-128 | of several four-octet numbers the last counts, and nothing else of the OPEN changes |
| WireBytes.ParameterStep | internal/bgp/wire_decode.go:104-146 | only parameters of type 2 hold capabilities, the others are skipped |
| WireBytes.OpenAccepted | internal/bgp/wire_decode.go:90-148 | an OPEN is refused if and only if it is too short or of another version; cut-off parameters are ignored |
| Packing.KeySeparates | internal/bgp/peer_routes.go:103-131 | two routes share a group key if and only if family, next hop and communities are equal |
| Packing.GroupRoutes | internal/bgp/peer_routes.go:93-131 | the loop over the routes builds the specified grouping and list of sent prefixes |
| Packing.ChunkPrefixes | internal/bgp/peer_routes.go:183-193 | the loop cuts into consecutive chunks of at most the fixed size |
| Packing.ChunksFull | internal/bgp/peer_routes.go:183-193 | the chunks are the consecutive pieces of the list, every one but the last of exactly a hundred |
| Packing.GroupingConserves | internal/bgp/peer_routes.go:93-131 | the groups hold each capability-filtered route exactly once under its own attributes |
| Packing.SentIsCapable | internal/bgp/peer_routes.go:93-131 | the recorded prefixes are those of the capability-filtered routes, in order |
| Packing.PackingConserves | internal/bgp/peer_routes.go:136-174 | the messages of a resync announce each capability-filtered route exactly once with its own next hop and communities |
| Packing.AnnouncementSize | internal/bgp/wire_encode.go:156-260 | an announcement of a chunk with at most three communities is at most 1800 bytes |
| Packing.WithdrawalSize | internal/bgp/peer_routes.go:80-91 | so is a withdrawal of a chunk |
| Packing.AnnouncementsFit | internal/bgp/peer_routes.go:136-174 | every announcement written for acceptable routes is encodable and within 1800 bytes |
| Packing.AnnouncementsShape | internal/bgp/peer_routes.go:137-166 | every announcement has origin IGP, the speaker number in the width of the session, one community list, nothing withdrawn, and one to a hundred prefixes of one family in the place of that family |
| Packing.BuildRoute | internal/bgp/route.go:25-79 | at most three communities, the next hop of the prefix family, and an error exactly for an oversized user number or a missing IPv6 address |
| Packing.CommunitiesIff | internal/bgp/route.go:36-59 | the communities are that of the user and then exactly those assigned to the category and to the service |
| Peers.ResyncTable | internal/bgp/peer_routes.go:52-180 | applying what a complete resync writes withdraws the stale prefixes and then learns the capable routes |
| Peers.ResyncEffect | internal/bgp/peer_routes.go:52-180 | per prefix: held afterwards if and only if desired, or held before and not withdrawn; desired ones carry a desired route of that prefix |
| Peers.ResyncServesIff | internal/bgp/peer_routes.go:52-180 | a complete resync makes the router serve the desired set if and only if all else it held is desired or withdrawn by this resync |
| Peers.ServesDistinct | internal/bgp/peer_routes.go:52-180 | with one route per prefix, serving determines the router table completely |
| PeerSession.Peer.ResyncRoutes | internal/bgp/peer_routes.go:52-180 | delivers exactly the resync messages, or their prefix up to the failing write; only success changes the record of what was sent, failure sets the retry flag |
| PeerSession.Conn.SendPart | internal/bgp/peer_fsm.go:65-78 | writes in order until the socket fails; then exactly what it still took has been delivered |
| PeerSession.Peer.CollectStale | internal/bgp/peer_routes.go:66-79 | the prefixes last sent and no longer desired, split by family |
| PeerSession.Peer.AnnounceRoutes | internal/bgp/peer_routes.go:200-212 | stores the set first, then resyncs an established session, delivering its messages or their prefix, or leaves the flag for the establish path |
| PeerSession.Peer.WithdrawRoutes | internal/bgp/peer_routes.go:217-239 | takes the prefixes out of the stored set, then does the same |
| PeerSession.ResyncFits | internal/bgp/peer_routes.go:52-180 | every message a resync writes, withdrawals included, is at most 1800 bytes |
| PeerSession.StepKeepsInv | internal/bgp/peer_fsm.go:300-406 | every store, caller resync, trigger, refresh, teardown and establishment keeps the session invariant |
| PeerSession.RunServes | internal/bgp/peer_routes.go:200-239 | in every run, whenever no caller is between storing and resyncing, an established router serves exactly the desired routes and its prefixes are exactly those recorded as sent |
| PeerSession.StartInv | internal/bgp/peer_fsm.go:80-88 | a new peer satisfies the invariant |
| PeerSession.NothingToWrite | internal/bgp/peer_routes.go:52-180 | a resync on a dead connection can only succeed when nothing was sent and nothing is to be |
| PeerSession.RetryServesIff | internal/bgp/peer_routes.go:43-51 | any attempts, each at its own set and cut off after an arbitrary message, then one success: the router serves the last set if and only if every prefix an attempt announced is still desired or was recorded as sent before |
| PeerSession.AttemptsLeave | internal/bgp/peer_routes.go:43-51 | after any attempts the router holds what it held and what they announced, except for prefixes recorded as sent |
| PeerSession.ResyncWithdraws | internal/bgp/peer_routes.go:66-91 | a resync withdraws only what was recorded as sent |
| PeerSession.RetryConverges | internal/bgp/peer_routes.go:43-51 | attempts at one unchanged set, then one success: the router serves exactly that set |
| PeerSession.DroppedAfterFailureStays | internal/bgp/peer_routes.go:43-51 | two routes take two messages; with the socket failing in between and the first route dropped before the retry, the router keeps it |
| Managers.Speaker.SetPeers | internal/bgp/speaker.go:201-273 | peers with unchanged session settings keep their stored routes, changed and new ones start empty, the others are gone; a listener failure changes nothing |
| Managers.ReplacedMeans | internal/bgp/speaker.go:201-273 | a wanted peer keeps its routes if and only if AS number, password, port and local address are what they were, and starts empty with the wanted settings otherwise; no other is left |
| Managers.Speaker.Announce | internal/bgp/speaker.go:296-305 | stores the set even when delivery fails, and fails for an unknown peer |
| Managers.ConfigsByKey | internal/bgp/manager.go:406-430 | with separate users each session key leads to its own user configuration |
| Managers.NoConfigsIff | internal/bgp/manager.go:406-430 | the list is refused if and only if a user has an IPv6 address and there is no local one |
| Managers.ConfigsOfUsers | internal/bgp/manager.go:406-430 | every session configured is that of some user |
| Managers.DialsIff | internal/bgp/manager.go:619-627 | a peer is dialled if and only if dialling is on for the speaker and the user and the address is that of one router; address, number, password and local address are those of the user and the settings |
| Managers.RestartsIff | internal/bgp/manager.go:315-329 | what was announced is forgotten if and only if the cache key or the configuration made for the user changes |
| Managers.ClearedMeans | internal/bgp/manager.go:338-353 | a failed change leaves an empty entry for the old key, none for a new one, and the others as they were |
| Managers.StartableIff | internal/bgp/manager.go:172-207 | a start configures exactly the users whose address parses and whose family the speaker has a local address for |
| Managers.EntryMustBeTrue | internal/bgp/manager.go:522-524 | what reconciling and starting let through is every desired set if and only if there is no entry or the entry is what the peer stores |
| Managers.FailedChangeStrands | internal/bgp/manager.go:331-353 | run: a change fails at the listener, the set is then emptied, reconciling reports success and the peer still stores the old set |
| Managers.LeftoverSkipsPeer | internal/bgp/manager.go:133-229 | run: a start over an entry left by a failed one reports success and the peer of that entry stores nothing |
| Managers.Manager.Reconcile | internal/bgp/manager.go:432-557 | with a true cache it stays true and a nil error means every enabled configured peer stores its desired set; with any other, a peer stores what the cache lets through; the error is nil if and only if every such user has its routes built and cached or delivered |
| Managers.Manager.ReconcileOne | internal/bgp/manager.go:505-554 | a peer is skipped exactly when the cache says it has the set, and stores what that lets through; success records the set, failure drops just that entry, and no other peer or entry changes |
| Managers.Manager.ReconcileUser | internal/bgp/manager.go:485-510 | disabled users and ones without an address are passed over, an unbuildable route ends the run, and the other users keep their entries and peers |
| Managers.Manager.AnnounceTo | internal/bgp/manager.go:527-554 | delivers exactly when the peer exists and takes the set; the peer stores the set either way, and only its entry is written or dropped |
| Managers.Manager.BuildPeerConfigs | internal/bgp/manager.go:406-430 | unparsable users are left out, and an IPv6 user without a local IPv6 address fails the whole list |
| Managers.Manager.SetPeers | internal/bgp/speaker.go:201-273 | every configured user has a peer on its settings afterwards; a list under which all cache entries survive keeps them true |
| Managers.Manager.PushPeers | internal/bgp/manager.go:253-262 | fails if the list is refused or the listener fails, then no peer changes; else the speaker has just the sessions of the list |
| Managers.Manager.RunsOnSettings | internal/bgp/speaker.go:201-273 | a configured user with a peer has it on just its own password, number, local address and dialling |
| Managers.Manager.AddPeer | internal/bgp/manager.go:237-265 | keeps the cache true; appends the user and gives the speaker just the sessions of the new list, or rolls back completely, and says exactly when |
| Managers.Manager.UpdatePeer | internal/bgp/manager.go:267-355 | keeps the cache true unless refreshing the listener fails; the list is exactly the old one with this user replaced or added, the speaker has its sessions, and it says exactly when that succeeds |
| Managers.Manager.ChangePeer | internal/bgp/manager.go:307-354 | forgets the entry exactly when the session restarts; after a failure the cache is true if and only if the list never reached the listener or the peer stores nothing |
| Managers.Manager.DeletePeer | internal/bgp/manager.go:357-393 | keeps the cache true even when setting the peers fails; drops exactly this user and its entry, and on success the speaker has just the sessions left |
| Managers.Manager.Start | internal/bgp/manager.go:133-229 | a start succeeds if and only if speaker and listener open and every configured enabled user has its routes built and delivered or cached; it then ends with every such peer storing what the cache it found lets through of its desired set, all of it with an empty cache |
| Managers.Manager.ReloadPeers | internal/bgp/manager.go:91-109 | the same from any valid state, as it drops speaker and cache first |
| Managers.Manager.Stop | internal/bgp/manager.go:66-89 | nothing configured, cached or running is left |
| SrsRules.MeetCovers | internal/feeds/srs_cidr.go:112-133 | the pairwise step covers exactly the addresses both lists cover and emits no empty range |
| SrsRules.IntersectCovers | internal/feeds/srs_cidr.go:89-141 | the folded intersection covers exactly what every group covers |
| SrsRules.IntersectCIDRs | internal/feeds/srs_cidr.go:89-141 | the loop over the groups computes that fold |
| SrsRules.OffNeverFails | internal/feeds/srs_parse.go:11-110 | with extraction off no rule is refused for its ranges and nothing is extracted |
| SrsRules.EmptyIffNothingCovered | internal/feeds/srs_parse.go:160-292 | the tests for an empty list are tests for an empty address set |
| SrsRules.Sound | internal/feeds/srs_parse.go:97-106 | for every rule tree each extracted address matches the rule, whatever the other attributes of the packet are |
| SrsRules.Exact | internal/feeds/srs_parse.go:160-292 | on trees of uninverted pure-CIDR rules with sub-rules the extracted addresses are exactly the matching ones |
| SrsRules.ExactAnd | internal/feeds/srs_parse.go:160-250 | for a conjunction of such rules: intersection, and the short-cut only when nothing matches all |
| SrsRules.ExactOr | internal/feeds/srs_parse.go:252-292 | for a disjunction of such rules: union |
| SrsRules.DefaultGives | internal/feeds/srs_parse.go:11-110 | a default rule gives the addresses of its ranges if and only if it is not inverted and has no item but ranges and the four domain kinds |
| SrsRules.AndGives | internal/feeds/srs_parse.go:160-250 | a conjunction has the lists of its sub-rules if and only if it can use them all; it is refused if and only if the first it cannot use is |
| SrsRules.OrGives | internal/feeds/srs_parse.go:252-292 | a disjunction gives an address if and only if a sub-rule does, is refused if and only if one is, and constrained if and only if all are |
| SrsRules.LogicalGives | internal/feeds/srs_parse.go:112-293 | for every logical rule which addresses are extracted, in terms of its sub-rules; an inverted one gives none |
| SrsParser.SkippingStaysInStep | internal/feeds/srs_parse.go:112-251 | a rule that parses with extraction on parses with it off, and off it parses whenever it can be read |
| SrsParser.DefaultSkipsInStep | internal/feeds/srs_parse.go:11-110 | the single pass over a default rule ends at the same byte with extraction on and off |
| SrsParser.LogicalSkipsInStep | internal/feeds/srs_parse.go:112-293 | the single pass over a logical rule ends at the same byte with extraction on and off, short-circuit or not, at every depth |
| SrsParser.DefaultReadAgrees | internal/feeds/srs_parse.go:11-110 | the single pass over a default rule gives what the rule comes to and ends where the rule ends |
| SrsParser.AndReadAgrees | internal/feeds/srs_parse.go:160-251 | the short-circuiting pass gives the same result and end position as reading every sub-rule |
| SrsParser.OrReadAgrees | internal/feeds/srs_parse.go:252-292 | the accumulating pass gives the union of the unconstrained sub-rules and the same end position |
| SrsParser.LogicalReadAgrees | internal/feeds/srs_parse.go:112-293 | the same for a whole logical rule at every depth up to the limit |
| SrsParser.RangesReadAgrees | internal/feeds/srs_cidr.go:14-84 | reading ranges with validation fails exactly on the malformed ones and ends where skipping ends |
| SrsParser.FileSound | internal/feeds/srs.go:64-142 | every address of every entry of a file matches one of its rules, and the file also parses with extraction off |
| SrsParser.OneEntryEach | internal/feeds/srs.go:112-134 | a file gives one entry for each rule whose extraction has an address, in rule order, and nothing for the others |
| SrsParser.EntriesUnlessRefused | internal/feeds/srs.go:112-134 | a file has entries if and only if none of its rules is refused |
| SrsParser.FileCovers | internal/feeds/srs.go:64-142 | for every file the entries cover an address if and only if the extraction of some rule of the file does |
| SrsParser.FileExact | internal/feeds/srs.go:64-142 | for a file of uninverted pure-CIDR rules if and only if some rule of it matches, whatever else the packet is |
| SrsParser.ParseSRS | internal/feeds/srs.go:64-142 | magic, version and decompression gate the rules; the entries are those of the rule file, one for each rule with an address (`SrsParser.OneEntryEach`) |
| SrsParser.Reader.ParseRules | internal/feeds/srs.go:97-142 | the entries are those of the reference reading of the file |
| SrsParser.Reader.ParseDefaultRule | internal/feeds/srs_parse.go:11-110 | result and end position of the streaming parser are those of the rule read |
| SrsParser.Reader.ParseLogicalRule | internal/feeds/srs_parse.go:112-293 | result and end position of the streaming parser are those of the rule read, with the depth limit |
| SrsParser.Reader.ParseAnd | internal/feeds/srs_parse.go:160-251 | sub-rules, short-circuit and invert byte of a conjunction |
| SrsParser.Reader.ParseOr | internal/feeds/srs_parse.go:252-292 | sub-rules and invert byte of a disjunction |
| SrsParser.Reader.SkipItemPayload | internal/feeds/srs_skip.go:269-296 | for every item type skipping ends where reading the item ends |
| SrsParser.Reader.SkipIPSet | internal/feeds/srs_skip.go:12-55 | skipping ends where reading the ranges ends |
| SrsParser.Reader.SkipStringArray | internal/feeds/srs_skip.go:57-86 | skips exactly the counted strings |
| SrsParser.Reader.SkipMatcher | internal/feeds/srs_skip.go:112-162 | skips exactly one succinct set |
| SrsParser.Reader.SkipPrefixArray | internal/feeds/srs_skip.go:164-196 | skips exactly the counted prefixes |
| SrsParser.Reader.SkipNetworkInterfaceAddress | internal/feeds/srs_skip.go:198-247 | skips exactly the counted map of prefix lists |
| SrsParser.Reader.SkipRemaining | internal/feeds/srs_skip.go:252-266 | skips items up to the final one |
| SrsParser.Reader.ReadIPSetAsCIDRs | internal/feeds/srs_cidr.go:14-84 | succeeds exactly on well-formed ranges, gives their addresses and ends where skipping ends |
| SrsFormat.UvarintBack | internal/feeds/srs.go:97-104 | however an unsigned 64-bit number is spelled in at most ten digits, it is read back |
| SrsFormat.UvarintBelow | internal/feeds/srs.go:97-104 | nothing larger is ever read |
| SrsFormat.UsualSpelling | internal/feeds/srs.go:97-104 | the shortest spelling is one |
| SrsFormat.CountRefused | internal/feeds/srs_skip.go:57-66 | a count above its limit is refused |
| SrsFormat.IPSetBack | internal/feeds/srs_cidr.go:14-84 | a written address set of up to ten million ranges is read back and ends at its last byte |
| SrsFormat.MatcherBack | internal/feeds/srs_skip.go:112-162 | the same for the succinct set of a domain matcher |
| SrsFormat.InterfacesBack | internal/feeds/srs_skip.go:198-247 | the same for a map of interface addresses |
| SrsFormat.PayloadBack | internal/feeds/srs_skip.go:269-296 | for all 24 kinds of item a written payload is skipped to exactly its last byte |
| SrsFormat.DefaultBack | internal/feeds/srs_parse.go:11-110 | a written default rule is read back, item by item |
| SrsFormat.RuleBack | internal/feeds/srs_parse.go:112-293 | a written rule of any shape, nested up to the limit, is read back and ends at its last byte |
| SrsFormat.IPSetRefused | internal/feeds/srs_cidr.go:14-40 | an address set of another version or with more than ten million ranges is refused |
| SrsFormat.PrefixRefused | internal/feeds/srs_skip.go:164-196 | so is a prefix of more than sixteen address bytes |
| SrsFormat.KindsRefused | internal/feeds/srs_parse.go:112-160 | so are unknown items and rule types, and logical rules of another mode or nested too deeply |
| SrsFormat.RangeTakenIff | internal/feeds/srs_cidr.go:40-84 | a range is taken if and only if both ends are of one family and an address lies between them |
| SrsFormat.FileBack | internal/feeds/srs.go:97-134 | a whole written file is read back as the rules that were written |
| SrsFormat.FileMeans | internal/feeds/srs.go:64-142 | from bytes to addresses: a written file of uninverted range rules, combined in any way, gives exactly the addresses that some rule of it says |
| History.ModeCorrect | internal/store/user_change_log.go:581-590 | whenever the mode before a point is known from the rows it is the mode the user had |
| History.SelectionCorrect | internal/store/user_change_log.go:595-647 | whenever the selection is known it is the one the user had in that mode, with legacy and oversized rows in any mix |
| History.StepKeepsInv | internal/store/users.go:731-778 | every audited mode switch, selection change, other audit row, sync and purge keeps the history invariant |
| History.RunKeepsInv | internal/store/feed_sync_changes.go:152-187 | so does every run of them, the clock never going back |
| History.StartInv | internal/store/user_change_log.go:698-707 | a user starts with an empty history above the floor, whatever an earlier holder of the ID left |
| History.WantedTwice | internal/store/auditlog.go:215-230 | a purge below the queried window does not change what is read |
| History.FetchedIsSuffix | internal/store/user_change_log.go:514-577 | the newest-N query returns the end of the user trail, complete down to the window or N rows long |
| History.HistoryRight | internal/store/user_change_log.go:698-924 | in every reachable state, for every sync at or above the horizon, a known mode or selection is exactly what the user had when the sync was recorded |
| History.ReadableIsKnown | internal/store/user_change_log.go:581-647 | with readable rows and a recorded sequence nothing is left unknown |
| History.SelectionKnownIff | internal/store/user_change_log.go:595-647 | on the rows: the selection in a mode is known if and only if no row after the point may have touched it, or the first that is about the mode, or unreadable without saying about which, is readable and not tied with the sync |
| History.ModeKnownIff | internal/store/user_change_log.go:581-590 | on the rows: the mode is known if and only if there is no switch after the point, or the first is readable and not tied with the sync |
| History.PlaceableIff | internal/store/user_change_log.go:568-576 | a read that was not full places every sync of the window, a full one those with a sequence from its oldest row on |
| HistoryReader.StartIndex | internal/store/user_change_log.go:480-491 | binary search finds the first change after the point in the mixed time and sequence order |
| HistoryReader.UserHistory.constructor | internal/store/user_change_log.go:514-577 | splits the rows by kind in order and sets the horizon to the oldest row of a full read |
| HistoryReader.UserHistory.ModeAt | internal/store/user_change_log.go:581-590 | answers the mode before the first later change, unknown for a tie without sequence or an unreadable row |
| HistoryReader.UserHistory.SelectionAt | internal/store/user_change_log.go:595-647 | answers the selection, with the caches never changing an answer; when it is known `History.SelectionKnownIff` says |
| HistoryReader.FetchedInOrder | internal/store/user_change_log.go:514-577 | what the query returns for a reachable trail satisfies what the reader relies on |
| ModeView.CanonicalIsLargest | internal/store/mode_entries.go:98-109 | the fragments of a row are exactly the largest blocks of what is left of it |
| ModeView.MergeMeans | internal/store/mode_entries.go:31-144 | per service the view announces exactly the include addresses that no enabled exclude feed covers |
| ModeView.DefaultsPass | internal/store/mode_entries.go:88-97 | default routes pass through, whatever is excluded, and none appears |
| ModeView.MergeServes | internal/store/mode_entries.go:31-175 | feed by feed and link by link: what a merge announces, and which default routes it has |
| ModeView.ExcludedSpace | internal/store/mode_entries.go:148-175 | the exclude prefixes denote the addresses of the enabled exclude feeds |
| ModeView.Cut | internal/store/mode_entries.go:88-109 | one include row becomes itself or its fragments |
| ModeView.CutAll | internal/store/mode_entries.go:55-143 | the loop over the rows collects exactly the merge |
| ModeView.Merge | internal/store/mode_entries.go:31-144 | rebuilding gives the merge of the mode feeds: per service it announces an address if and only if an enabled feed linked for inclusion has it in a row and no enabled feed linked for exclusion does, and the default routes of the include feeds |
| CatalogStore.OnlyOwnLinks | internal/store/mode_entries.go:214-232 | a mode merge depends only on its own links and the feeds they name |
| CatalogStore.EmptyFeedAddsNothing | internal/store/feeds.go:108-144 | linking a feed without rows changes no merge |
| CatalogStore.Catalog.ValidServes | internal/store/mode_entries.go:25-29 | whatever writes led here, every mode announces exactly what its enabled include feeds have and none of its enabled exclude feeds has |
| CatalogStore.Catalog.Rebuild | internal/store/mode_entries.go:25-29 | the mode is up to date and no other view is touched |
| CatalogStore.Catalog.RebuildAll | internal/store/mode_entries.go:221-232 | rebuilding the stale modes leaves every mode up to date |
| CatalogStore.Catalog.SyncFeed | internal/feeds/feeds.go:348-417 | replaces the rows unless the feed is gone, changed or disabled; no view goes stale |
| CatalogStore.Catalog.InsertEntries | internal/store/dictionaries.go:84-154 | adds rows; no view goes stale |
| CatalogStore.Catalog.UpdateFeed | internal/store/feeds.go:201-252 | drops the rows exactly when something besides the enabled flag changes; no view goes stale |
| CatalogStore.Catalog.AddFeedWithMode | internal/store/feeds.go:114-144 | adds feed and link without any rebuild; still no view goes stale |
| CatalogStore.Catalog.DeleteFeed | internal/store/feeds.go:373-480 | removes rows and links and rebuilds only the modes it was in; no view goes stale |
| CatalogStore.Catalog.AddFeedToMode | internal/store/modes.go:284-294 | sets one link; no view goes stale |
| CatalogStore.Catalog.RemoveFeedFromMode | internal/store/modes.go:296-311 | removes one link; no view goes stale |
| CatalogStore.Catalog.ReplaceModeFeeds | internal/store/mode_entries.go:187-212 | replaces the membership, or undoes everything for an unknown or repeated feed; no view goes stale |
| CatalogStore.LinkableIff | internal/store/mode_entries.go:187-212 | a membership list is accepted if and only if it names existing feeds, each once, for an existing mode; entries without a feed do not count |
| CatalogStore.LinkedAs | internal/store/mode_entries.go:187-212 | each feed of an accepted list is linked in the role the list gives it |
| CatalogStore.Catalog.AddMode | internal/store/modes.go:94-102 | a new mode has an empty and correct view |
| CatalogStore.Catalog.DeleteMode | internal/store/modes.go:111-200 | refuses the built-in modes, else removes links and rows with the mode; no view goes stale |
| Alerts.BelowLine | internal/alerts/alerts.go:290-311 | at or below the drop line the reported percentage is at least the threshold |
| Alerts.DropFiresIff | internal/store/user_prefix_alerts.go:136-177 | outside an episode a drop fires if and only if the baseline is positive and large enough and the count has lost the threshold percentage of it; otherwise the counts become the baseline, family by family |
| Alerts.EpisodeEndsIff | internal/store/user_prefix_alerts.go:179-217 | an episode ends if and only if more than that is left, with a recovery if and only if the drop was delivered; otherwise the row is unchanged |
| Alerts.FirstSetsBaseline | internal/store/user_prefix_alerts.go:119-134 | the first measurement only sets the baseline |
| Alerts.DropPercentMeans | internal/alerts/alerts.go:299-306 | the reported percentage is the part of the baseline that is gone, a started percent counted, and zero without a baseline |
| Alerts.OfferedIsPending | internal/alerts/alerts.go:132-161 | what a measurement offers is what the row says is undelivered, a drop before a recovery, with the counts just measured |
| Alerts.MeasureCollects | internal/alerts/alerts.go:108-162 | with a webhook exactly that is collected, without one nothing, and nobody else is touched |
| Alerts.DeliveredIff | internal/alerts/alerts.go:201-275 | a posted delivery is logged and marked if and only if the row still describes that very event |
| Alerts.LatestIsQueued | internal/alerts/alerts.go:168-183 | the queue keeps for each user the last delivery it was given |
| Alerts.HandOffLosesNothing | internal/alerts/alerts.go:164-190 | handing off starts the loop on everything collected or queues it, where only a later event of the same user replaces it |
| Alerts.ConstantIsQuiet | internal/store/user_prefix_alerts.go:119-217 | after one measurement, repeating it changes nothing and reports nothing |
| Alerts.ConstantFiresOnce | internal/store/user_prefix_alerts.go:119-217 | however long the counts stay constant, at most one more transition fires |
| Alerts.StepKeepsInv | internal/alerts/alerts.go:99-275 | every measurement, hand-off, delivery, queue take-over and disabling keeps the alert invariant |
| Alerts.RunTellsTruth | internal/alerts/alerts.go:99-306 | in every run a recovery is delivered only right after the drop of its own episode with its pre-incident baseline, and nothing is delivered twice |
| Alerts.ToldOnce | internal/alerts/alerts.go:201-275 | no two deliveries to a user announce the same drop or the same recovery |
| Alerts.ToldAtLeastThreshold | internal/alerts/alerts.go:290-311 | every drop ever delivered reports at least the threshold |
| Alerts.PendingIsOffered | internal/store/user_prefix_alerts.go:219-321 | with a webhook an undelivered event is offered again at the next measurement |
| AlertChecker.Checker.Evaluate | internal/store/user_prefix_alerts.go:119-217 | the branches over the stored row compute the verdict that `Alerts.DropFiresIff` and `Alerts.EpisodeEndsIff` spell out |
| AlertChecker.Checker.DropPending | internal/store/user_prefix_alerts.go:227-248 | an undelivered drop with fresh counts, if there is one |
| AlertChecker.Checker.RecoveryPending | internal/store/user_prefix_alerts.go:298-321 | an undelivered recovery as stored, if there is one |
| AlertChecker.Checker.Mark | internal/store/user_prefix_alerts.go:282-285 | only the flag of the delivered kind changes |
| AlertChecker.Checker.Run | internal/alerts/alerts.go:99-191 | one tick over all users, then hand-off to the loop or its queue, is a run of the specified steps |
| AlertChecker.Checker.DeliverNext | internal/alerts/alerts.go:217-261 | checks that the event is still pending, posts, and only then marks |
| AlertChecker.Checker.TakeQueue | internal/alerts/alerts.go:262-275 | the loop takes over everything queued meanwhile, or ends |
| Communities.FirstFree | internal/store/communities.go:24-29 | the first unused number from the start on |
| Communities.FindFirstFree | internal/store/communities.go:24-29 | the counting loop finds it |
| Communities.GenerationKeeps | internal/store/communities.go:677-835 | generation moves no number, keeps numbers distinct and assigns every catalog pair |
| Communities.GenerationIdempotent | internal/store/communities.go:677-835 | generating twice is generating once |
| Communities.GeneratedNumbers | internal/store/communities.go:782-835 | from any table generation adds only pairs of the catalog; a service gets a number above that of its category with every number between the two used, a category the first from its place in the list on |
| Communities.PositionalIffSmall | internal/store/communities.go:49-63 | from an empty table the numbers are the positional ones if and only if no category has more than 9999 services |
| Communities.SmallIsPositional | internal/store/communities.go:49-63 | up to 9999 services every pair gets its positional number, all below the next category |
| Communities.LargeIsOff | internal/store/communities.go:49-63 | the first larger category gets some service a number other than its positional one |
| CommunityStore.CommunityTable.Set | internal/store/communities.go:220-243 | refused if and only if another pair of the mode has the number |
| CommunityStore.CommunityTable.Delete | internal/store/communities.go:586-595 | removes one pair and keeps the rest distinct |
| CommunityStore.CommunityTable.Generate | internal/store/communities.go:677-835 | the nested loops give the specified table, with every pair assigned |
| CommunityStore.CommunityTable.Reset | internal/store/communities.go:542-576 | renumbers from scratch exactly when neither the table nor the numbering a reset would give has changed since the preview |
| CommunityStore.CommunityTable.PreviewReset | internal/store/communities.go:415-443 | reports the table before and after a reset and leaves it unchanged |
| CommunityStore.CommunityTable.SetAll | internal/store/communities.go:272-309 | updates in order, generates the rest, and undoes everything on a conflict |
| CommunityStore.LastUpdateCounts | internal/store/communities.go:272-309 | in an accepted batch the last number given to a pair counts, zero leaving it without one; a pair not named keeps what it had |
| CommunityStore.RefusedIff | internal/store/communities.go:272-309 | a batch is refused if and only if one of its numbers belongs to another pair at its turn |
| CommunityStore.CommunityTable.Import | internal/store/config_snapshot.go:494-512 | clear-then-set is accepted, for every list, if and only if each number is free at its turn |
| CommunityStore.LaidKeeps | internal/store/config_snapshot.go:503-512 | assigning to cleared pairs, later entries never undo earlier ones |
| CommunityStore.LaidPairs | internal/store/config_snapshot.go:503-512 | the pairs set afterwards are those of the table and those named |
| CommunityStore.MergeTellsIff | internal/store/config_snapshot.go:494-512 | the merged numbering tells acceptance on every table if and only if the list on its own is accepted and supersedes no number, or contradicts itself |
| CommunityStore.DistinctPairsTell | internal/store/config_snapshot.go:494-512 | so a list naming each pair once is accepted if and only if the merged numbering has no duplicate, whatever the order |
| CommunityStore.RepeatedPairRefused | internal/store/config_snapshot.go:503-512 | a list naming a pair twice is refused on a number it supersedes, although the merged numbering has no duplicate |
| CommunityStore.Conflict | internal/store/config_snapshot.go:503-512 | in a list naming each pair once a number refused on the way is a duplicate of the merged numbering |
| UserImport.WritesDistinct | internal/store/config_snapshot.go:595-637 | the real writes go to distinct rows |
| UserImport.KnownUserWritten | internal/store/config_snapshot.go:595-637 | every existing user whose mode resolves gets its identity written |
| UserImport.EveryUserWritten | internal/store/config_snapshot.go:595-637 | every user to be written gets a write of its identity, a new one under an unused ID |
| UserImport.NoWritesIff | internal/store/config_snapshot.go:595-637 | the import is refused before any check if and only if an address of a user to be written cannot be parsed |
| UserImport.MidwayStart | internal/store/config_snapshot.go:515-593 | after staging every row holds its final identity or a placeholder that no final identity uses |
| UserImport.MidwayStep | internal/store/config_snapshot.go:595-637 | a write refused midway shows that the final assignment has a duplicate |
| UserImport.UserTable.Put | internal/store/config_snapshot.go:587-590 | the uniqueness constraint refuses exactly an identity another row holds |
| UserImport.UserTable.Stage | internal/store/config_snapshot.go:515-593 | no staging write is ever refused, and exactly the changing users are moved to placeholders |
| UserImport.UserTable.PutUser | internal/store/config_snapshot.go:601-637 | updates the named user or inserts a new one |
| UserImport.UserTable.Import | internal/store/config_snapshot.go:437-709 | accepted if and only if every address parses and the final assignment is unique, whatever permutation it applies; else nothing changes |

## Left out

- Sockets, deadlines, dialling, backoff, TCP MD5 and packet filtering; HTTP handlers, sessions and settings; the webhook's HTTP retry. A write either succeeds or fails, a webhook post either succeeds or fails.
- SQL text, locking, retries and migrations. Tables are maps and sets, each transaction one step.
- `netip`, `netipx`, `big.Int` and zlib. Address parsing, address printing and decompression are parameters; printing is assumed injective and free of the key's separators (`AddressText`).
- Exponents of double-precision numbers: rounding to 53 bits is modelled, overflow and underflow are not; counts and sizes up to 2^128 stay far from both.
- The percentage over several services combined and the sorting of the lookup's lists: they reuse the same computation.
- Invalid prefixes handed to `ExcludeSet.Subtract`; the store only passes valid ones.
- Two resyncs of one peer at the same time: `sendMu` makes each atomic against the other, and the protocol model takes that for granted. Establishment and its first resync are one step.
- Runs of the session protocol in which a resync on the live session fails: `PeerSession.RunServes` has none, `PeerSession.RetryServesIff` covers any attempts followed by a success.
- Keepalive timers, hold-time negotiation and collision handling of the session state machine.
- The manager's `installed` signatures, which nothing in the cache logic reads.
- A start while a speaker is running: the program stops it first. How a failed start fills the cache is left open; `Managers.Manager.Start` holds for whatever cache it finds.
- Two users whose addresses are written differently but parse alike: the manager's duplicate check compares text, and the model requires one spelling per address.
- Context cancellation, the decompressed-size limit and integers of 2^63 or more in rule sets. What follows a failed domain matcher is read as the code reads it, but such a rule is only said to yield nothing.
- Prefix interning, its clean-up and the row diff shown for a sync (`DiffCatalogEntries`).
- The display side of the change log: capping, paging, category and service listing.
- The choice between global and own route filters (`effectiveRouteFilters`, `mergeRouteFilters`) and the overlap check on user networks: single-branch selections.
- Config import's changes to selections without per-user audit rows: the history model has audited writers only, so history across such an import is not covered.
- 32-bit wrap-around of community numbers and of placeholder AS numbers: both are unbounded here.
- Digests: the preview of a community reset is compared as the two tables themselves, and an audited selection change is written exactly when the selection changed.
- Marking a delivered alert: check, post and mark are one step, so a crash between post and mark is not modelled.
- UserImport.UserTable.Stage: is stated for snapshots that name each user once, as every export does; an uploaded snapshot naming a user twice would move and write that row twice.
- UserImport.UserTable.Import: is stated for snapshots that name each user once, for the same reason.
- Managers.Manager.UpdatePeer: does not promise a true cache when refreshing the listener fails, because the code does not keep it then; `Managers.Manager.ChangePeer` gives the exact condition.
- Filter.Apply: states its outcome through the normal forms of its inputs; `Filter.ApplyDenotes` and `Filter.ApplyExactIff` say what they denote.
