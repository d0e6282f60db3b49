# UPF gateway: verified model

A Dafny 4.11 model of the packet-and-policy engine of a 5G user plane function: the token-bucket
policing, PDR lookup and header parsing of its XDP data plane, the Go control plane that mirrors
flows, sessions and rules into kernel maps, its PFCP and GTP-U parsers, and the entry checksum that
both sides compute. `dafny verify dfyconfig.toml` checks everything.

Integers have their machine width: `U8` to `U64` are bounded, and every place where the code's
arithmetic can wrap is written with `Wrap16`, `Wrap32` or `Wrap64`. Code that updates structures in
place is modelled by classes and methods; each such method is proved equal to a function on values,
and the main results are lemmas about those functions over all inputs and all runs.

| file | models |
|---|---|
| `Machine.dfy` | bounded integers, big-endian octets |
| `TokenBuckets.dfy`, `BucketRuns.dfy` | one token bucket, and whole runs of it |
| `QosFlows.dfy` | a flow's two buckets and counters, and runs with rate updates |
| `PdrChecksum.dfy`, `PdrLookup.dfy` | the checksum written twice, and the retrying lookup |
| `KernelParse.dfy`, `Counters.dfy`, `Ingress.dfy` | the kernel's parsers, its counters, the whole ingress program |
| `GoGtp.dfy`, `GtpAgreement.dfy` | the Go GTP-U parser, and the two parsers compared |
| `Pfcp.dfy`, `PfcpGroups.dfy` | PFCP header, element scan, responses and grouped elements |
| `FlowNames.dfy`, `QosSystem.dfy`, `QosManager.dfy` | flow table and kernel flow map as one state machine, the manager, session modifications |
| `PdrSystem.dfy`, `EndToEnd.dfy` | sessions and rules over the shared PDR map, and what their packets meet |

## What the proofs establish

- **Rate.** Whatever the timestamps, the wrap-arounds and the interleaving of stale write-backs, a
  policed flow forwards at most one burst, plus one per backward timestamp and per committed rate
  update, plus its rate times forward time; proved for a bucket, for a flow, for the running system
  and for the frames that leave the gateway. Both extra terms are attained. Runs of short gaps never
  refill at all.
- **Precision.** Without wrap-around the integer bucket never exceeds an exact one and trails it by
  at most one bit per packet.
- **Checksum.** An entry written by the control plane passes the kernel's check exactly when its
  action is 0 and the low half of its interface index plus its QFI equals the high half. Hence a
  session with a nonzero QFI cannot be reached, and the entry of a drop or redirect rule never
  verifies: the packets of either are dropped as misses.
- **Agreement.** Flow table and kernel map, and session and rule tables and kernel map, agree after
  every run in which any map access may fail; for TEIDs exactly as long as no owner is added on one in
  use.
- **Parsing.** The PFCP scan and the GTP-U parser are exact both ways, but for one octet that is lost
  exactly when an extension header was parsed; the two GTP-U parsers agree on a length exactly when no
  extension header is announced, and where their QFIs agree is stated for every packet.
- **Outcomes.** Every frame's fate, every entry an operation writes and every field a parser reads is
  fixed from the octets and the fields of the inputs: which frames go up the stack, which verdict the
  two buckets give, how far the extension walk moves, which rates a modification installs.
- **Counting.** The packet counters obey their balance laws over every run; a flow's bytes are conserved.

## Modelling decisions

- One packet's lookup, lock and consumption are one step. A rate update is two, its read and its
  write, with packets between them; other control operations wait for the manager's lock.
- A failing map access leaves the map as it was. Each access that may fail takes a fault flag, so
  every statement holds for all patterns of failure. A full map refuses new keys.
- The reads of one PDR lookup are unrelated values, so other writers may do anything between them.
- Frames are at most 65535 octets long. Words are little-endian, as on the platforms of the
  generated loader, and a TEID in the data plane is the machine word read from the packet. The
  control plane writes its keys in host order; nothing here claims that a packet's TEID octets find
  such a key, and the end-to-end lemmas speak of a packet whose lookup reads the entry in question.
- `h_proto` is read big-endian and compared with 0x0800, which is the comparison of the raw word
  with `bpf_htons(ETH_P_IP)`. Flag tests are written as divisions: `flags / 4 % 2 == 1` is
  `flags & 0x04`. The `sum >> 32` fold of the kernel's checksum does nothing to a 32-bit sum.
- The Go parsers' slices panic where the model returns `Panicked`; that happens only for messages
  longer than 65535 octets.
- `stale` in `QosSystem` and `PdrSystem` records which flows and sessions last changed in memory
  without the change reaching the kernel.

## Model

| member | source | states |
|---|---|---|
| TokenBuckets.TokenBucket.Refill | bpf/upf_common.h:237-253 | in-place refill equals the wrapping refill function |
| TokenBuckets.TokenBucket.Consume | bpf/upf_common.h:255-269 | in-place consumption: verdict and new bucket |
| TokenBuckets.RefillIs | bpf/upf_common.h:237-253 | the refilled bucket in numbers: gap and sum mod 2^64, earnings by gap * rate mod 2^64 over 10^9, cap, and which buckets only get a timestamp or nothing |
| TokenBuckets.ConsumeIs | bpf/upf_common.h:255-269 | below 2^61 octets: accepted iff the refilled contents hold 8 tokens an octet, which are then taken |
| TokenBuckets.RefillWithinBurst | bpf/upf_common.h:243-250 | however 64-bit results wrap, the contents stay within the burst |
| TokenBuckets.RefillAtMostElapsed | bpf/upf_common.h:243-250 | a forward gap earns at most gap times rate, even when the product or the sum wraps |
| BucketRuns.RateBound | bpf/upf_common.h:237-269 | over every run with arbitrary timestamps and stale commits: admitted bits <= burst * (1 + backward steps + commits) + r * forward time |
| BucketRuns.StaleCommitsRefund | pkg/bpf/manager_linux.go:307-320 | k stale commits admit k + 1 bursts in no time: the commit term is attained |
| BucketRuns.BackwardStepsRefund | bpf/upf_common.h:243-250 | k steps back in time admit k + 1 bursts: the backward term is attained too |
| BucketRuns.LongPacketsAreFree | bpf/upf_common.h:261-266 | a limit of the arithmetic, not met by frames: at 2^61 octets the bit count wraps to 0, so the bound needs its limit on lengths |
| BucketRuns.ShortGapsNeverRefill | bpf/upf_common.h:243-252 | when no gap earns a whole bit, a run of any length spends only its initial tokens |
| BucketRuns.TracksExact | bpf/upf_common.h:243-268 | the integer bucket never exceeds the exact one, trails it by at most n bits, and accepts what the exact one accepts with n bits to spare |
| QosFlows.QosFlow.EnforceTrafficShaping | bpf/upf_xdp_kern.c:257-310 | the locked update of an entry: verdict and whole new entry |
| QosFlows.VerdictIs | bpf/upf_xdp_kern.c:257-310 | below 2^61 octets: 3 iff the maximum-rate bucket lacks 8 tokens an octet and the QFI is not 1; 2 iff it does not but the guaranteed one of a type 0 flow does and the QFI is 2 or 9; else 0 |
| QosFlows.AfterPacketIs | bpf/upf_xdp_kern.c:277-309 | the whole entry afterwards: which buckets are asked, and when dropped bytes and shaped packets grow |
| QosFlows.DeadEntryIgnored | bpf/upf_xdp_kern.c:272-273 | an entry with another magic is neither policed nor changed |
| QosFlows.BytesConserved | bpf/upf_xdp_kern.c:277-304 | for qfi other than 1: total = forwarded + dropped bytes, and shaped packets = rejections, mod 2^64 |
| QosFlows.VoiceNeverRejected | bpf/upf_xdp_kern.c:281-289 | qfi 1 is never rejected although its excess bytes are booked as dropped |
| QosFlows.UnlimitedNeverRejected | bpf/upf_xdp_kern.c:279-306 | without a maximum rate, and without a guaranteed rate on QFI 2 or 9, no packet of any run is rejected |
| QosFlows.RejectsSomethingIff | bpf/upf_xdp_kern.c:272-310 | a live flow rejects a packet of some run iff its QFI is not 1 and it has a maximum rate, or is of guaranteed type with a guaranteed rate and QFI 2 or 9 |
| QosFlows.MbrSpendingIsExact | bpf/upf_xdp_kern.c:279-306 | MBR tokens spent are the bits of all packets not rejected by MBR, including those GBR drops |
| QosFlows.GbrSpendingIsExact | bpf/upf_xdp_kern.c:295-306 | QFI 2 or 9 with a guaranteed rate: over every run the guaranteed bucket pays exactly the bits of the forwarded packets |
| QosFlows.WithRatesIs | pkg/bpf/manager_linux.go:313-316 | a rate update changes the four rate fields and leaves levels, timestamps and counters as read |
| QosFlows.FlowRateBound | bpf/upf_xdp_kern.c:279-292 | a policed flow forwards within its maximum-rate bound over runs with rate updates |
| QosFlows.GuaranteedRateIsACeiling | bpf/upf_xdp_kern.c:295-306 | QFI 2 and 9 flows of guaranteed type are also held to the guaranteed rate, on the packets MBR passes |
| PdrChecksum.CalcChecksum | bpf/upf_common.h:190-202 | the running 32-bit sum over six packed words, complemented |
| PdrChecksum.VerifyIntegrity | bpf/upf_common.h:204-214 | true exactly for the right magic and checksum |
| PdrChecksum.WordsInjective | bpf/upf_common.h:85-94 | the packed word layout loses no field |
| PdrChecksum.WordsOfPacked | bpf/upf_common.h:85-94 | word i is octets 4i to 4i + 3 of the packed structure, least significant first |
| PdrChecksum.ChecksumComplements | bpf/upf_common.h:190-202 | the six words and the checksum add up to 2^32 - 1, mod 2^32 |
| PdrChecksum.PdrValue.InitChecksum | bpf/upf_common.h:216-225 | the entry verifies afterwards, whatever it held |
| PdrChecksum.PdrValue.UpdateChecksum | bpf/upf_common.h:227-235 | the entry verifies afterwards exactly when its magic was right; the version advances mod 2^32 |
| PdrChecksum.SingleWordChangeDetected | bpf/upf_common.h:190-214 | changing exactly one 32-bit word of a valid snapshot is always detected |
| PdrChecksum.CalcPdrChecksum | pkg/bpf/manager_linux.go:124-138 | the Go sum over fields, wrapping at each addition |
| PdrChecksum.GoChecksumComplements | pkg/bpf/manager_linux.go:124-138 | the fields, the MAC octets weighted by position mod 4, and the checksum add up to 2^32 - 1, mod 2^32 |
| PdrChecksum.SumsDiffer | pkg/bpf/manager_linux.go:124-138 | kernel sum minus Go sum = 65535 * (lo - hi + qfi) + (2^24 - 1) * action |
| PdrChecksum.GoChecksumPassesIff | pkg/bpf/manager_linux.go:124-165 | a Go-written entry verifies iff that difference is 0 mod 2^32, iff action = 0 and lo + qfi = hi |
| PdrLookup.PdrLookupSafe | bpf/upf_xdp_kern.c:200-255 | the retry loop returns the first clean round's snapshot with its torn-read and retry counts |
| PdrLookup.LookupSafe | bpf/upf_xdp_kern.c:200-255 | under any interference: success iff some round is clean, snapshot verifies, at most 2 retries; a found entry that fails costs exactly 3 |
| PdrLookup.CleanIs | bpf/upf_xdp_kern.c:220-249 | a round is clean iff its second magic is right, its version did not move, and its copy has the right magic and checksum |
| PdrLookup.LookupReports | bpf/upf_xdp_kern.c:200-255 | first clean round k: its copy, k retries and the torn rounds before it; none: 3 retries and one torn read more than torn rounds |
| PdrLookup.UndisturbedLookup | bpf/upf_xdp_kern.c:215-254 | without interference: returned at once if it verifies, else never, with 4 torn reads booked |
| PdrLookup.GoEntryFoundIff | pkg/bpf/manager_linux.go:153-167 | an undisturbed Go-written entry is found iff action = 0 and lo + qfi = hi |
| KernelParse.HdrCursor.ParseEthHdr | bpf/upf_xdp_kern.c:52-65 | bounds check, EtherType and cursor |
| KernelParse.HdrCursor.ParseIpHdr | bpf/upf_xdp_kern.c:67-87 | header with options: bounds checks, protocol and cursor |
| KernelParse.HdrCursor.ParseUdpHdr | bpf/upf_xdp_kern.c:89-102 | bounds check and cursor |
| KernelParse.HdrCursor.ParseGtpuHdr | bpf/upf_xdp_kern.c:104-143 | every read in bounds, and the 16-bit header length is the one computed without wrap-around |
| KernelParse.HdrCursor.WalkExtensionHeaders | bpf/upf_xdp_kern.c:126-137 | the extension loop ends, reads inside the frame and never wraps |
| KernelParse.WalkExtensions | bpf/upf_xdp_kern.c:125-138 | an accepted walk stays in the frame, moves in units of 4 and ends at a zero length octet |
| KernelParse.WalkIs | bpf/upf_xdp_kern.c:126-137 | for any list of nonzero length octets met on the way, the walk moves 4 octets a unit: it ends behind them at a zero, and fails if that is outside the frame |
| KernelParse.WalkMeets | bpf/upf_xdp_kern.c:126-137 | every walk meets such a list, which ends at a zero or leads outside |
| KernelParse.GtpuLen | bpf/upf_xdp_kern.c:104-143 | an accepted header lies in the frame and is congruent mod 4 to its base length |
| KernelParse.GtpuLenIs | bpf/upf_xdp_kern.c:104-143 | the length from the flags: 8, or 12 with S or PN; with E 10 or 14 plus 4 times the sum of the length octets met; none if that is outside the frame |
| KernelParse.GtpuLenRefuses | bpf/upf_xdp_kern.c:104-118 | a header of fewer than 8 octets, another version or another protocol type is refused |
| KernelParse.ExtractQfiIs | bpf/upf_common.h:271-297 | the QFI is the low six bits of the third octet from 8, or from 12 with S or PN, behind a type octet 0x85, and 0 in every other case |
| GoGtp.ParseHeader | pkg/gtp/gtp.go:48-112 | never indexes outside data and equals the recursive parser |
| GoGtp.ParseExtensions | pkg/gtp/gtp.go:81-109 | the extension loop terminates and equals the recursive chain |
| GoGtp.ParseIs | pkg/gtp/gtp.go:48-79 | each error and each success before the extensions, from the octets |
| GoGtp.ChainIs | pkg/gtp/gtp.go:81-109 | any chain of extensions that fit, followed by anything: the extensions in order, then success or the error that the following octets call for |
| GoGtp.ParseLossless | pkg/gtp/gtp.go:48-112 | the consumed bytes can be rebuilt from the header, save octet 11 after an extension |
| GoGtp.EqualHeadersEqualBytes | pkg/gtp/gtp.go:48-112 | inputs with equal headers consumed equally many, equal bytes, except possibly octet 11 when an extension was parsed |
| GoGtp.Octet11IsLost | pkg/gtp/gtp.go:77-106 | once an extension was parsed, every nonzero octet 11 gives the same result |
| GoGtp.Octet11LostIff | pkg/gtp/gtp.go:71-109 | octet 11 of a header with optional fields cannot be recovered iff an extension was parsed |
| GoGtp.RoundTrip | pkg/gtp/gtp.go:48-112 | the bytes of any expressible header, with any payload behind them, parse back to it |
| GoGtp.HeaderLen | pkg/gtp/gtp.go:128-137 | base length plus the 8-bit lengths of the extensions |
| GoGtp.HeaderLenAgainstOffset | pkg/gtp/gtp.go:87-137 | offset minus HeaderLen is a nonnegative multiple of 256, zero iff every extension spans fewer than 64 units |
| GoGtp.GetQfi | pkg/gtp/gtp.go:139-146 | the QFI of the first PDU session extension, if any |
| GoGtp.QfiOfIs | pkg/gtp/gtp.go:139-146 | with i the first extension of type 0x85 with a value: the low six bits of its first octet |
| GoGtp.QfiOfNone | pkg/gtp/gtp.go:139-146 | without such an extension there is no QFI |
| GtpAgreement.AgreeWithoutExtensions | bpf/upf_xdp_kern.c:104-124 | flag clear: both parsers accept the same packets with the same length |
| GtpAgreement.LengthsAgreeIffNoExtension | bpf/upf_common.h:175-183 | on packets both accept, lengths agree iff the extension flag is clear |
| GtpAgreement.QfiWithOptions | bpf/upf_common.h:271-297 | flag set along with S or PN: exact relation of the two QFIs, equal when the first extension has type 0x85 |
| GtpAgreement.QfiWithoutOptions | bpf/upf_common.h:277-296 | flag set alone: the kernel takes the sequence number's low octet for the type and the N-PDU number for the QFI; the readings agree iff those octets spell Go's QFI |
| GtpAgreement.ExtensionFlagAloneDisagrees | bpf/upf_common.h:277-296 | such a packet: QFI 9 and 16 octets for Go, QFI 0 and 10 octets for the kernel |
| Counters.Stats.UpdateStatsQos | bpf/upf_xdp_kern.c:145-198 | the whole new counter state, each counter wrapping at 64 bits |
| Counters.WrapAdded | bpf/upf_xdp_kern.c:155-197 | wrapping at every packet equals wrapping once at the end |
| Counters.CountersMean | bpf/upf_xdp_kern.c:145-198 | each of the fifteen counters over any list of reports, as a count of packet types or results or a sum; a policed packet is two drops |
| Ingress.DataPlane.UpfXdpIngress | bpf/upf_xdp_kern.c:346-394 | the whole program: verdict, packet, counters and flow map as the pure pipeline says |
| Ingress.DataPlane.Tunnelled | bpf/upf_xdp_kern.c:396-429 | the part after header parsing, likewise |
| Ingress.DataPlane.EnforceTrafficShaping | bpf/upf_xdp_kern.c:261-273 | the looked-up entry is updated and stays under its key |
| Ingress.OtherTrafficPasses | bpf/upf_xdp_kern.c:362-394 | another EtherType, protocol or port, or a message other than 0xFF: passed up unchanged, uncounted, no flow touched |
| Ingress.MalformedIsDropped | bpf/upf_xdp_kern.c:362-391 | a frame cut short in any header, or with a refused one: dropped, counted once, no flow touched |
| Ingress.UserPacketsOnly | bpf/upf_xdp_kern.c:362-394 | any frame but a user packet has one of these two outcomes; a user packet is parsed at 22 + 4 * IHL and never passed up |
| Ingress.RawTeidIs | bpf/upf_xdp_kern.c:396 | the TEID is octets 4 to 7 of the header, least significant first |
| Ingress.UserPacketOutcome | bpf/upf_xdp_kern.c:396-429 | the whole outcome of every user packet, case by case: action, octets, report and flow map |
| Ingress.DecapsulationExactIff | bpf/upf_xdp_kern.c:312-344 | stripped length equals the parsed length iff IHL = 5; otherwise 4 * (IHL - 5) octets of outer header remain |
| Ingress.ForwardedWasFound | bpf/upf_xdp_kern.c:399-407 | a forwarded packet had a verified entry that does not say drop |
| Ingress.ProcessPolices | bpf/upf_xdp_kern.c:396-418 | the flow map changes as policing under the named flow does, exactly when the packet carries user data and a QFI and its PDR allows; a forwarded packet had verdict OK or no QFI |
| Ingress.MissIffNoCleanRound | bpf/upf_xdp_kern.c:396-402 | a user packet is a miss iff no round of its lookup was clean; then nothing is charged |
| Ingress.ReportShape | bpf/upf_xdp_kern.c:362-429 | every packet not passed up is counted once, with torn reads and retries in their bounds |
| Ingress.CounterLawsOverRuns | bpf/upf_xdp_kern.c:145-198 | over every run, with the flow map changing arbitrarily between packets: tx + drop = rx + both QoS drops, gtpu = hit + miss, hit = tx, torn <= retries + miss, retries <= 3 rx, shaped and protected stay 0; machine counters are these mod 2^64 |
| Pfcp.ParseHeader | pkg/pfcp/pfcp.go:106-135 | when it fails and with which error, where the body starts, and that the sequence number has 24 bits |
| Pfcp.HeaderLossless | pkg/pfcp/pfcp.go:106-135 | a header determines every consumed bit but the low three of octet 0 and the spare octet |
| Pfcp.ScanIEs | pkg/pfcp/pfcp.go:145-161 | the loop with its 16-bit sum yields the ideal elements, or panics |
| Pfcp.ScanExact | pkg/pfcp/pfcp.go:145-161 | re-encoded elements plus leftover are the input; the leftover starts no element |
| Pfcp.EncodeScan | pkg/pfcp/pfcp.go:145-161 | scanning the encoding of any element list gives it back |
| Pfcp.ScanNeverPanics | pkg/pfcp/pfcp.go:150-160 | panics iff a complete element of 65532 or more octets is reached; never within 65535 octets |
| Pfcp.OversizedElementPanics | pkg/pfcp/pfcp.go:150-160 | one element of 65532 octets panics the slice |
| Pfcp.ParseMessage | pkg/pfcp/pfcp.go:137-164 | header error, or header with the scanned elements |
| Pfcp.BuildAssociationSetupResponse | pkg/pfcp/pfcp.go:326-335 | the sixteen octets written into the buffer |
| Pfcp.BuildSessionEstablishmentResponse | pkg/pfcp/pfcp.go:337-349 | the twenty octets written into the buffer; the cause is not among them |
| Pfcp.AssociationResponseParsesBack | pkg/pfcp/pfcp.go:326-335 | parses back to SEID and sequence mod 2^24; the cause is in the spare octet, in no element |
| Pfcp.SessionResponseParsesBack | pkg/pfcp/pfcp.go:337-349 | parses back likewise; the announced cause element is missing, so no element is found |
| PfcpGroups.ParsePdi | pkg/pfcp/pfcp.go:215-251 | each field from the last sufficiently long element of its type |
| PfcpGroups.ParseCreatePdr | pkg/pfcp/pfcp.go:188-213 | likewise, with the last detection group taken whole |
| PfcpGroups.ParseCreateFar | pkg/pfcp/pfcp.go:253-280 | likewise |
| PfcpGroups.ParseCreateQer | pkg/pfcp/pfcp.go:282-319 | likewise, uplink and downlink from the same element |
| PfcpGroups.LastOfIs | pkg/pfcp/pfcp.go:200-207 | the last match in terms of positions |
| PfcpGroups.LastOfNoneIff | pkg/pfcp/pfcp.go:200-207 | there is none iff nothing of the type is long enough |
| PfcpGroups.PdiFieldsAre | pkg/pfcp/pfcp.go:215-251 | which octets of which last element, by type number, the fields come from |
| PfcpGroups.PdrFieldsAre | pkg/pfcp/pfcp.go:188-213 | likewise for the rule identifier and the detection group |
| PfcpGroups.FarFieldsAre | pkg/pfcp/pfcp.go:253-280 | likewise for identifier and action; the destination interface stays 0 |
| PfcpGroups.QerFieldsAre | pkg/pfcp/pfcp.go:282-319 | likewise: uplink rates from octets 0 to 7, downlink rates from octets 8 to 15 |
| PfcpGroups.AbsentFieldsAreZero | pkg/pfcp/pfcp.go:188-319 | a field none of whose elements is long enough is zero |
| PfcpGroups.ParseSessionModification | pkg/pfcp/pfcp.go:166-186 | one entry per group element, in order, each parsed from its value |
| PfcpGroups.ModificationIs | pkg/pfcp/pfcp.go:166-186 | an element of type 1, 3 or 4 anywhere in the message gives the entry at its place among those of its type; others give none |
| PfcpGroups.LaterPdiReplaces | pkg/pfcp/pfcp.go:205-206 | the last detection group, whatever its octets, replaces the whole tuple |
| PfcpGroups.PdiRoundTrip | pkg/pfcp/pfcp.go:215-251 | the octets of an encoded detection group parse back |
| PfcpGroups.QerRoundTrip | pkg/pfcp/pfcp.go:282-319 | an encoded enforcement rule parses back |
| FlowNames.FlowNameInjective | pkg/upf/qos.go:36-38 | different flows have different "teid:qfi" names |
| FlowNames.DecimalReads | pkg/upf/qos.go:36-38 | the decimal digits denote the number and have no leading zero |
| QosSystem.RunKeepsAgreement | pkg/upf/qos.go:40-113 | after every run with failing map accesses: equal key sets, equal counts up to 1024, entries that fit, equal rates unless the last update failed |
| QosSystem.EmptyAgrees | pkg/upf/qos.go:29-34 | the empty system, where every run starts, agrees |
| QosSystem.StepKeepsAgreement | pkg/upf/qos.go:40-113 | the same for each operation, half an update, and each packet |
| QosSystem.AddIs | pkg/upf/qos.go:40-64 | a new flow is stored under its name, its entry has both buckets full with 8 bits a burst octet mod 2^64 and all counters 0; a refused one changes nothing |
| QosSystem.RemoveIs | pkg/upf/qos.go:66-81 | a removed flow is gone from both maps and nothing else is; a refused removal changes nothing |
| QosSystem.UpdateIs | pkg/upf/qos.go:95-113 | an undisturbed update sets the rates in the record always, and in the entry and its buckets unless an access fails |
| QosSystem.StaleCommitIs | pkg/bpf/manager_linux.go:307-320 | with packets in between, the written entry has the tokens and counters of when it was read, and the new rates |
| QosSystem.SystemRateBound | pkg/bpf/manager_linux.go:307-320 | the rate bound for any installed non-voice flow of the running system |
| QosManager.Manager.AddQoSFlow | pkg/bpf/manager_linux.go:254-290 | the new entry with full buckets, or no change |
| QosManager.Manager.RemoveQoSFlow | pkg/bpf/manager_linux.go:292-295 | the entry removed, or no change |
| QosManager.Manager.GetQoSFlow | pkg/bpf/manager_linux.go:297-305 | the entry, unless absent or unreadable |
| QosManager.Manager.UpdateQoSFlowRates | pkg/bpf/manager_linux.go:307-320 | the copy read first, with new rates, overwrites what packets made of the entry meanwhile |
| QosManager.QoSManager.AddFlow | pkg/upf/qos.go:40-64 | one Add step of the system, with its status |
| QosManager.QoSManager.RemoveFlow | pkg/upf/qos.go:66-81 | one Remove step of the system, with its status |
| QosManager.QoSManager.UpdateRates | pkg/upf/qos.go:95-113 | begin, packets and commit of the system; memory keeps the rates when the kernel fails |
| QosManager.QoSManager.ResolveTeid | pkg/upf/qos.go:169-175 | the TEID of the first selecting detection rule, else 0 |
| QosManager.QoSManager.ApplyPFCPModification | pkg/upf/qos.go:163-218 | the rules applied in order up to the first failure |
| QosManager.TargetIs | pkg/upf/qos.go:164-199 | what a rule asks for: its downlink rates, twice the guaranteed one (mod 2^64) for a missing maximum, type and priority by QFI, burst by the maximum rate |
| QosManager.TargetNone | pkg/upf/qos.go:165-179 | a rule without QFI or without a TEID is skipped |
| QosManager.NotAsked | pkg/upf/qos.go:164-179 | no rule asks for a flow whose QFI none of them has, or whose QFI resolves to another TEID |
| QosManager.StopsAtFirstFailure | pkg/upf/qos.go:206-215 | a failed modification is the rules before the failing one, applied, and what the failing one did |
| QosManager.DefaultBurstIsTenMilliseconds | pkg/upf/qos.go:158-161 | the default burst is 10 ms at the rate iff rate * 10 does not wrap |
| QosManager.ApplyKeepsAgreement | pkg/upf/qos.go:163-218 | both sides agree after any modification, also a failed one |
| QosManager.ModificationEffect | pkg/upf/qos.go:163-218 | on success each flow has the rates of the last rule asking for it, in memory and kernel, and the burst of its creation |
| QosManager.ModificationStores | pkg/upf/qos.go:163-218 | on success, from the fields of the message: record and entry hold the downlink rates of the last rule with the QFI; a flow created here has type, priority and the burst of the first |
| QosManager.UnaskedFlowsUntouched | pkg/upf/qos.go:163-218 | a flow no rule asks for keeps its rates and bursts |
| QosManager.ModificationIdempotent | pkg/upf/qos.go:163-218 | a second application leaves every stored flow and rate unchanged |
| PdrSystem.Manager.AddPDR | pkg/bpf/manager_linux.go:140-168 | entry with next version, padded MAC and Go checksum, or no change |
| PdrSystem.MacOfIs | pkg/bpf/manager_linux.go:144-145 | octet i of the stored address is octet i of the given one, or 0 behind its end |
| PdrSystem.NewEntryIs | pkg/bpf/manager_linux.go:153-165 | every field of a written entry |
| PdrSystem.Manager.GetPDR | pkg/bpf/manager_linux.go:177-187 | the entry, unless absent or unreadable |
| PdrSystem.Manager.RemovePDR | pkg/bpf/manager_linux.go:170-175 | the entry removed, or no change |
| PdrSystem.SessionManager.CreateSession | pkg/upf/session.go:42-63 | one step of the system; it succeeds iff the identifier is new and the kernel takes the entry |
| PdrSystem.SessionManager.RemoveSession | pkg/upf/session.go:65-80 | one step of the system, with its status |
| PdrSystem.SessionManager.UpdateSessionQfi | pkg/upf/session.go:122-145 | one step of the system; it succeeds iff the session exists and the kernel takes the entry, and the session keeps the QFI either way |
| PdrSystem.PDRManager.AddPDR | pkg/upf/session.go:179-200 | one step of the system; it succeeds iff the identifier is new and the kernel takes the entry |
| PdrSystem.PDRManager.RemovePDR | pkg/upf/session.go:202-217 | one step of the system, with its status |
| PdrSystem.CreateIs | pkg/upf/session.go:42-63 | the session is stored, exactly its TEID is written, with its MAC and QFI; or nothing changes |
| PdrSystem.RemoveSessionIs | pkg/upf/session.go:65-80 | the session and its entry are gone, nothing else is; or nothing changes |
| PdrSystem.UpdateIs | pkg/upf/session.go:122-145 | the session has the new QFI; so has its entry, and no other entry changes, unless the write fails |
| PdrSystem.AddRuleIs | pkg/upf/session.go:179-200 | the rule is stored, exactly its TEID is written, with its MAC, interface, QFI and action; or nothing changes |
| PdrSystem.RemoveRuleIs | pkg/upf/session.go:202-217 | the rule and its entry are gone, nothing else is; or nothing changes |
| PdrSystem.RunKeepsAgreement | pkg/upf/session.go:42-217 | without shared TEIDs, after every run: kernel entries are exactly the live owners', each with its owner's MAC, interface, action and (unless its last change failed) QFI |
| PdrSystem.EmptyAgrees | pkg/upf/session.go:35-40 | the empty tables agree and share nothing |
| PdrSystem.VersionsCountWrites | pkg/bpf/manager_linux.go:147-167 | a version is the number of writes since the TEID was last removed, or its entry last unreadable, mod 2^32 |
| PdrSystem.FreshTeidIff | pkg/upf/session.go:42-217 | an operation leaves tables that agree after every next operation iff it adds no owner on a TEID in use |
| PdrSystem.SharedTeidOrphans | pkg/upf/session.go:65-80 | in any agreeing state: removing a session whose TEID another has taken leaves that one without an entry and unremovable, until a QFI change writes the entry again |
| EndToEnd.OwnedEntryVerifiesIff | pkg/bpf/manager_linux.go:153-167 | the entry of any live owner is found iff its action is 0 and lo + qfi = hi |
| EndToEnd.SessionReachableIff | pkg/upf/session.go:50-56 | a live session's entry is found by the data plane, at once and with the gNB's MAC, iff its QFI is 0 |
| EndToEnd.CreatedSessionReachableIff | pkg/upf/session.go:42-63 | in any agreeing state, creating a session on a fresh TEID succeeds whatever its QFI, but only one with QFI 0 can then be found |
| EndToEnd.DropAndRedirectRulesUnreachable | pkg/upf/session.go:187-193 | the entry of a drop or redirect rule never verifies, so it is never found |
| EndToEnd.SessionWithQfiIsBlackholed | bpf/upf_xdp_kern.c:399-402 | a user packet of a session with a QFI is dropped as a miss after 3 retries and 4 torn reads |
| EndToEnd.SessionWithoutQfiIsServed | bpf/upf_xdp_kern.c:409-428 | a packet of a session without QFI that is not rejected leaves as its inner frame, addressed to the gNB |
| EndToEnd.ExtensionFlagAloneIsUnpoliced | bpf/upf_xdp_kern.c:409-418 | a packet with the extension flag alone and no 0x85 in the low sequence octet leaves every flow as it was |
| EndToEnd.WireRunProjects | bpf/upf_xdp_kern.c:346-429 | a run of frames and control operations is a run of the QoS system, which admits what the gateway forwards |
| EndToEnd.WireKeepsAgreement | pkg/upf/qos.go:40-113 | flow table and kernel map agree after every run of frames and control operations |
| EndToEnd.WireRateBound | bpf/upf_xdp_kern.c:409-428 | the rate bound for the frames of a flow that leave the gateway, over every run of frames and control operations |

## Left out

- QosFlows.FlowRateBound: voice flows (QFI 1) and flows with maximum rate 0 are excluded, because the maximum rate never rejects their packets; `RejectsSomethingIff` says which of them reject anything at all, and `GuaranteedRateIsACeiling` bounds those that do.
- Ingress.DataPlane.EnforceTrafficShaping: the entry is loaded, updated in place and stored back under its key; pointers into the map that outlive a replacement are not modelled.
- QosManager.QoSManager.ApplyPFCPModification: only packets run between its rules, and its existence test and the operation after it are one step, so other control operations interleaved with a modification are not modelled.
- Lock words, reserved words and the buckets' own magic, which no modelled code reads.
- Aliasing of stored flow, session and rule pointers by callers: tables hold values.
- The order in which Go iterates over its maps, and the list and get operations built on it.
- The forward map, statistics summed over CPUs, and redirect targets: one CPU's counters are modelled, and whether a redirect finds a target is a parameter.
- XDP attachment, object loading, pinning, interface set-up, the service's start, stop and logging, configuration: foreign calls and display.
- `ParseInnerIP`, `IPToUint32`, the QER's text form and `gtp.ParseMessage`, which is the header parse plus a slice.
- Conformance with 3GPP TS 29.281 and TS 29.244: statements are about the code's own formats, which deviate from them.
