# ns-O-RAN E2 termination: verified model

This Dafny project models the hand-written logic of an ns-3 module that terminates the O-RAN E2 interface inside a
simulation, and proves what that logic promises. Everything around it (the ASN.1 runtime, SCTP transport, ns-3
objects) is outside the model.

| files | what they model |
|---|---|
| `Words`, `OctetStrings`, `Wrappers` | C integer conversions and promotions, bitwise operators on integers, octet strings in both byte orders, lexicographic order |
| `IdentityPacking`, `IdentityCodecs`, `MsbCodecs`, `PlmnCodec` | the identity codecs: one generic layout theorem per byte order, and each encoder and decoder proved against it; BCD PLMN packing |
| `UeIdHash`, `UeIdentity` | the 64-bit hash of UE identities and the gNB UE identity built around it |
| `HeaderTime` | the microsecond clock and the time stamp of the indication header |
| `Numerals`, `Measurements`, `IndicationFormats`, `IndicationMessage` | measurement lists, the reports extracted from them, the Format 1 and Format 2 builders, and the gate in front of the encoder |
| `HelperMetrics`, `IndicationHelpers` | the LTE and NR helpers as a state machine over their calls |
| `LastOf`, `Subscription`, `ControlMessage`, `TargetCell` | processing of subscription and control requests, and the walk of the RAN parameter tree |
| `FunctionDescription` | the report styles of the KPM function description and their deep copies |

Conventions. An octet is an integer in 0..255 and a machine word is an integer reduced explicitly modulo its width.
`std::set` of list pointers is a sequence in its enumeration order: an insertion may land at any position and never
reorders what is there. Results of `rand()`, clock readings and the ASN.1 decoder are parameters. A `double` is a
real number; the conversion of a `long` rounds to 53 bits, half to even. A straight run of `AddItem` calls is written
as one table of names and argument readings that a method walks in order.

Findings, each proved below.

- The 36-bit NR cell identity decoder shifts a promoted octet into the sign bit of an `int`. An identity survives
  the round trip exactly when its bit 31 is clear (`NrCellIdRoundTrip`); the least one damaged is 0x8000_0000
  (`NrCellIdDamaged`).
- The action id returned by subscription processing is that of the last action, not of the accepted one. When
  the last list of actions has an acceptable one, the two agree exactly when those actions' ids have the same low
  octet (`ReturnedActionIsAccepted`); if the list repeats no low octet, exactly when no action follows the first
  acceptable one (`ReturnedActionWhenIdsDiffer`). In a request with one list, the returned id is among the accepted
  ones exactly when the list has an acceptable action and the first such shares its low octet with the last action
  (`ReturnedActionOfRequest`).
- PLMN packing restores slightly more than its digits suggest: MCC below 1600, and MNC below 1500 with three digits
  (`PlmnRoundTrip`).
- A reported `long` survives Format 2 exactly when it is a multiple of the spacing of doubles at its magnitude, so
  two UEs with different counters beyond 53 bits can report the same value (`ToDoubleExact`, `ToDoubleMerges`).
- A header stamped without a given time carries the true second, modulo 2^32, exactly for clock readings from 1970
  on (`FallbackSecond`); one second before 1970 is stamped as another second (`SecondBeforeEpoch`).

Where comments and code differ, the model follows the code.

- The comment in front of `make_report_style` says node type 1 is NR and 2 is eNB; the code selects LTE for 0 and
  gNB for 1, and copies no list for any other value.
- A comment in subscription processing says that all actions but the first REPORT are rejected; the code also
  accepts INSERT, and never fills the list of rejected actions.

## Model

| member | source | states |
|---|---|---|
| IdentityPacking.PackRoundTrip | model/conversions.c:5-399 | for every octet count and fewer than 8 unused bits, any identity that fits is restored by unpacking, and its padding bits are zero |
| IdentityPacking.UnpackRoundTrip | model/conversions.c:5-399 | every octet string with clear padding is the packing of the one fitting identity it unpacks to |
| IdentityPacking.PackInjective | model/conversions.c:5-399 | different fitting identities have different packings |
| IdentityCodecs.AmfRegionIdToBitString | model/conversions.c:5-15 | fills a fresh one-octet buffer with the common layout, no unused bits |
| IdentityCodecs.AmfSetIdToBitString | model/conversions.c:28-42 | the 10-bit set id in the common layout, 6 bits unused |
| IdentityCodecs.AmfPtrToBitString | model/conversions.c:58-69 | the 6-bit pointer in the common layout, 2 bits unused |
| IdentityCodecs.NrCellIdToBitString | model/conversions.c:84-101 | the 36-bit cell identity in the common layout, 4 bits unused |
| IdentityCodecs.FourOctetIdToBitString | model/conversions.c:117-229 | 32-bit gNB and 28-bit E-UTRA cell and home eNB identities in the common layout |
| IdentityCodecs.ThreeOctetIdToBitString | model/conversions.c:181-385 | 20-, 18- and 21-bit eNB and ng-eNB identities in the common layout |
| IdentityCodecs.AmfRoundTrips | model/conversions.c:17-82 | the three AMF decoders restore region, pointer and set id for all values their encoders accept |
| IdentityCodecs.AmfSetIdDecodes | model/conversions.c:45-56 | the set id expression, with its promotions, computes the common unpacking on every two octets |
| IdentityCodecs.MacroGnbIdDecodes | model/conversions.c:133-144 | although the top octet can turn the int negative, the narrowed result is the common unpacking |
| IdentityCodecs.FourOctetIdDecodes | model/conversions.c:166-243 | the four-octet decoders compute the common unpacking |
| IdentityCodecs.ThreeOctetIdDecodes | model/conversions.c:198-399 | the three-octet decoders compute the common unpacking |
| IdentityCodecs.NrCellIdDecodes | model/conversions.c:103-115 | the common unpacking when octet 3 is below 128, otherwise all ones above the low 32 bits |
| IdentityCodecs.NrCellIdRoundTrip | model/conversions.c:84-115 | exact round trip if and only if bit 31 is clear; otherwise the upper word is all ones; the low word always survives |
| IdentityCodecs.NrCellIdDamaged | model/conversions.c:84-115 | 0x8000_0000 comes back as 0xFFFF_FFFF_8000_0000 |
| IdentityCodecs.MacroGnbIdRoundTrip | model/conversions.c:117-144 | every 32-bit gNB identity survives |
| IdentityCodecs.FourOctetIdRoundTrip | model/conversions.c:148-243 | every 28-bit identity survives |
| IdentityCodecs.ThreeOctetIdRoundTrip | model/conversions.c:181-399 | every 20-, 18- and 21-bit identity survives |
| MsbCodecs.PackMsbRoundTrip | model/conversions.h:78-126 | the layout of the most-significant-first macros is undone by its reader for every width |
| MsbCodecs.UnpackMsbRoundTrip | model/conversions.h:78-126 | octets with clear padding are restored from the value they hold |
| MsbCodecs.Int16ToBuffer | model/conversions.h:79-83 | writes the low 16 bits in network order and leaves the rest of the buffer alone |
| MsbCodecs.Int24ToBuffer | model/conversions.h:93-98 | writes the low 24 bits in network order and leaves the rest of the buffer alone |
| MsbCodecs.Int32ToBuffer | model/conversions.h:110-116 | writes the low 32 bits in network order and leaves the rest of the buffer alone |
| MsbCodecs.BufferToInt16Decodes | model/conversions.h:86-90 | the 16-bit reader computes the big-endian value of two octets |
| MsbCodecs.BufferToInt24Decodes | model/conversions.h:101-106 | the 24-bit reader computes the big-endian value of three octets |
| MsbCodecs.BufferToInt32Decodes | model/conversions.h:119-125 | the 32-bit reader computes the big-endian value even through a negative int |
| MsbCodecs.MacroGnbIdToBitString | model/conversions.h:484-493 | the 28-bit identity, most significant first, low nibble of the last octet clear |
| MsbCodecs.MacroEnbIdToBitString | model/conversions.h:520-528 | the 20-bit identity, most significant first, 4 bits unused |
| MsbCodecs.MacroIdRoundTrips | model/conversions.h:484-535 | every macro gNB and macro eNB identity and every 32-bit word survives |
| PlmnCodec.ToOctetString | model/kpm-indication.h:254-264 | the three octets of the encoder, which the macros share |
| PlmnCodec.EncodedDigits | model/conversions.h:298-305 | the three octets of any MCC and MNC of up to three digits, digit by digit, with the filler 15 for two-digit MNCs |
| PlmnCodec.DecodersReadDigits | model/conversions.h:316-354 | the two decoders agree on all triples: each reads the six nibbles as digits |
| PlmnCodec.PlmnRoundTrip | model/conversions.h:280-354 | either decoder restores MCC, MNC and length if and only if MCC is below 1600 and MNC below 100 (two digits) or 1500 (three) |
| PlmnCodec.BcdRoundTrip | model/conversions.h:298-325 | re-encoding the identity of any well-formed BCD triple restores the octets |
| UeIdHash.OsToRanUeId8Bytes | model/kpm-indication.cc:820-829 | the loop leaves in the buffer the little-endian octets of the recursive hash |
| UeIdHash.EmptyIdHash | model/kpm-indication.cc:820-829 | the octets for the empty identity are the start word's, least significant first |
| UeIdHash.OneOctetIdHash | model/kpm-indication.cc:820-829 | the eight octets for the identity "1", which fix the start word, the prime and the order of xor and multiplication |
| UeIdHash.StepBijective | model/kpm-indication.cc:824-827 | for every octet the hash step is a bijection on 64-bit words, undone by the inverse prime and the same xor |
| UeIdHash.RewindThenFold | model/kpm-indication.cc:824-827 | every word is reached through any string, from the rewound state |
| UeIdHash.FoldThenRewind | model/kpm-indication.cc:824-827 | rewinding a string recovers the state before it |
| UeIdHash.SuffixCancels | model/kpm-indication.cc:820-829 | a common suffix neither creates nor hides a collision |
| UeIdHash.OneOctetSeparates | model/kpm-indication.cc:820-829 | identities that differ in exactly one octet never share a ran_UEID |
| UeIdentity.Int64RoundTrips | model/conversions.c:401-419 | the two conversions are inverse on 64-bit words and, up to zero padding, on strings of at most 8 octets |
| UeIdentity.FillUeId | model/kpm-indication.cc:833-853 | for all draws and identities of at most 8 octets every codec precondition holds, pointer, set, region and PLMN decode to the drawn values, and the unused-bit counts are those the decoders require |
| HeaderTime.TimeNowUsClock | model/kpm-indication.cc:172-196 | the reading rounded half up to microseconds modulo 2^64, for seconds of any size and sign, or the all-ones word when the clock fails |
| HeaderTime.ClockIsNearest | model/kpm-indication.cc:184-192 | within 500 ns of the true time, no whole number of microseconds is nearer, and of two equally near the later is taken |
| HeaderTime.ClockIsMonotone | model/kpm-indication.cc:184-192 | later readings never give fewer microseconds |
| HeaderTime.ClockCarry | model/kpm-indication.cc:184-192 | the rounded reading reaches the next second exactly from nsec 999999500 on |
| HeaderTime.FillCollectStartTime | model/kpm-indication.cc:290-314 | byte swap and copy leave the seconds in network order, of the given time or, when it is 0, of the system clock truncated to microseconds |
| HeaderTime.TimestampDecodes | model/kpm-indication.cc:304-314 | the four octets hold the whole seconds modulo 2^32 |
| HeaderTime.GivenSecond | model/kpm-indication.cc:290-314 | a given time other than 0 is stamped as its whole seconds modulo 2^32, whatever the clock reads |
| HeaderTime.TruncationIsTowardsZero | model/kpm-indication.cc:295-301 | the fallback drops the part of a microsecond towards 0, also before 1970 |
| HeaderTime.TimestampOrder | model/kpm-indication.cc:304-314 | lexicographic order of the octets is time order until the seconds wrap |
| HeaderTime.FallbackSecond | model/kpm-indication.cc:290-314 | without a given time the four octets hold the clock's true second modulo 2^32 if and only if the reading is not before 1970 |
| HeaderTime.SecondBeforeEpoch | model/kpm-indication.cc:290-314 | the reading one second before 1970 is stamped as second 4154504684, which is not -1 modulo 2^32 |
| Numerals.StollReads | helper/nr-indication-message-helper.cc:66 | white space, an optional sign and any run of digits read as that number whatever follows the run, or throw out-of-range when it is no long |
| Numerals.StollThrows | helper/nr-indication-message-helper.cc:66 | invalid-argument exactly when the text has no such reading, out-of-range exactly when it has one that is no long |
| Numerals.PaddingReadsSame | helper/lte-indication-message-helper.cc:45-46 | leading zeros do not change what an identity is read as, or whether it throws |
| Numerals.StollReadsDecimal | helper/nr-indication-message-helper.cc:66 | the numeral of any long, followed by any non-digit text, is read back as that long |
| Numerals.CeilIsLeast | helper/nr-indication-message-helper.cc:80 | the rounded-up count is the least integer not below the number |
| Numerals.ToDoubleExact | model/kpm-indication.cc:646-652 | a reported long is unchanged if and only if it is a multiple of the spacing of doubles there |
| Numerals.ToDoubleNearest | model/kpm-indication.cc:646-652 | the reported value is the multiple of the spacing of doubles nearest to the long, the even one of two equally near |
| Numerals.ToDoubleSmall | model/kpm-indication.cc:646-652 | longs of at most 53 bits are reported as one value only if they are equal |
| Numerals.ToDoubleMerges | model/kpm-indication.cc:646-652 | two different longs that are reported as one value |
| Measurements.MeasurementItemList.AddItem | model/kpm-indication.h:171-177 | appends one complete item and keeps the others |
| Measurements.ExtractUeReports | model/kpm-indication.cc:621-663 | one report per list in enumeration order, each that of its items |
| Measurements.ReportPaired | model/kpm-indication.cc:631-657 | names and values stay paired, and nothing is skipped exactly when no item lacks a half |
| Measurements.ReportFollowsSources | model/kpm-indication.cc:631-657 | a report holds the name and value of every item with both halves, in order, and nothing else |
| Measurements.ReportedValue | model/kpm-indication.cc:646-652 | a double added to a list is reported unchanged, a long of at most 53 bits exactly, and any other within half the spacing of doubles |
| Measurements.ReportOfComplete | model/kpm-indication.cc:631-657 | metric m of a complete list is item m's name and the value its record stands for |
| IndicationFormats.Format1.Fill | model/kpm-indication.cc:543-618 | the two skipping loops collect all info halves and all record halves in order; without info nothing changes |
| IndicationFormats.AlignedIff | model/kpm-indication.cc:559-602 | every entry of the info and record lists is the half of the item at its source index, and the indices are all such items in order; the two index lists are equal if and only if no item lacks just one half, and then entry i of both lists comes from one and the same complete item |
| IndicationFormats.BuiltListAligned | model/kpm-indication.cc:69-85 | any list built through AddItem reports value i under name i with nothing dropped |
| IndicationFormats.Format2.Fill | model/kpm-indication.cc:665-817 | extracts the reports of the UE lists, then appends one data item holding their flattened matrix and one condition per metric of the first UE; empty input changes nothing |
| IndicationFormats.Format2.FillFromReports | model/kpm-indication.cc:677-817 | the nested loops append the records metric by metric, UE by UE, and then the conditions and the granularity period |
| IndicationFormats.FlattenAt | model/kpm-indication.cc:704-723 | metricCount * ueCount records, and record m * ueCount + u is UE u's value of metric m |
| IndicationFormats.RecordBelongsTo | model/kpm-indication.cc:704-723 | record k belongs to UE k mod ueCount and metric k div ueCount, for every k |
| IndicationFormats.UnflattenRow | model/kpm-indication.cc:704-723 | reading every ueCount-th record recovers a UE's values in order |
| IndicationFormats.UnflattenRecovers | model/kpm-indication.cc:665-735 | all reports are recovered whole if and only if no UE has more metrics than the first |
| IndicationMessage.FillAndEncode | model/kpm-indication.cc:855-950 | what reaches the encoder for each format, including the default cell list |
| IndicationMessage.EncodingGate | model/kpm-indication.cc:867-946 | the encoder is reached exactly for a non-empty or defaulted cell list or a non-empty UE set whose first report has metrics, with the sizes the message needs |
| IndicationMessage.CellMessageShows | model/kpm-indication.cc:885-902 | a cell list that exists is encoded entry by entry as added; the four default metrics only when there is none |
| HelperMetrics.UeNamesIgnoreArguments | helper/nr-indication-message-helper.cc:68-122 | for any table, the names of a UE list depend neither on the arguments nor on the UE's number |
| HelperMetrics.NrCellReduced | helper/nr-indication-message-helper.cc:140-176 | the NR cell names depend on the reduced-PM flag alone, which drops the second and third of 30 |
| HelperMetrics.LteUeArguments | helper/lte-indication-message-helper.cc:47-53 | each argument of an LTE UE call is added under its own name |
| HelperMetrics.LteCellArguments | helper/lte-indication-message-helper.cc:65-69 | each argument of an LTE cell call is added under its own name |
| HelperMetrics.NrUeCounterArguments | helper/nr-indication-message-helper.cc:69-94 | each counter of an NR UE call is added under its own name |
| HelperMetrics.NrUeCellArguments | helper/nr-indication-message-helper.cc:95-121 | SINR, its code and the id of the serving cell and of each neighbour are added under that cell's names |
| HelperMetrics.NrUeParts | helper/nr-indication-message-helper.cc:69-122 | the NR UE list is the counters, then the cells, then the throughput |
| HelperMetrics.NrCellArguments | helper/nr-indication-message-helper.cc:149-176 | each argument that an NR cell call always reports is added under its own name |
| HelperMetrics.NrCellParts | helper/nr-indication-message-helper.cc:140-176 | the cell id first, the two totals only without the reduced set, then the rest |
| IndicationHelpers.RunUniform | helper/nr-indication-message-helper.cc:65-123 | after every sequence of calls all UE lists have the node's one ordered schema |
| IndicationHelpers.RunConserves | helper/nr-indication-message-helper.cc:123 | the lists present are those of the calls that did not throw, each once, wherever the set places them |
| IndicationHelpers.RunKeepsLastCell | helper/nr-indication-message-helper.cc:178 | the cell report is that of the last cell call, whatever surrounds it |
| IndicationHelpers.ColumnsCarryTheirLabels | model/kpm-indication.cc:685-753 | after any run, column m carries the name every UE reported its m-th item under and the no-label condition, its records are exactly those items' values, and the granularity period is 100 |
| IndicationHelpers.ReportsRecoverable | model/kpm-indication.cc:665-735 | after any run, the message's records per metric are the number of UEs, and every UE's whole report can be read back out of the message |
| IndicationHelpers.MessageCarriesTheCalls | model/kpm-indication.cc:665-735 | after any run, the multiset of rows read back from one Format 2 message alone, its UE count included, is that of the values given by the calls that did not throw |
| IndicationHelpers.ArgumentReachesMessage | model/kpm-indication.cc:665-753 | every metric of every call that did not throw stands in some row of the message, in a column that carries its name |
| IndicationHelpers.MessageShowsTheCell | model/kpm-indication.cc:543-902 | after any run the Format 1 message holds exactly the metrics of the last cell call, name by name and value by value |
| IndicationHelpers.MessageShowsTheDefault | model/kpm-indication.cc:885-902 | after a run without a cell call it holds four fixed names and values |
| IndicationHelpers.UeIdColumn | helper/nr-indication-message-helper.cc:66-68 | the first metric is the number that the identity's sign and digits give, however it is padded, and the call throws exactly when that is no long |
| IndicationHelpers.SmallIdsStayApart | helper/nr-indication-message-helper.cc:66-68 | UEs whose identities read as numbers of at most 53 bits share their first record if and only if the numbers are equal |
| IndicationHelpers.GateOpens | model/kpm-indication.cc:855-950 | in a helper's states the encoder is reached for every cell request, and for a UE request exactly when a UE was reported |
| IndicationHelpers.IndicationMessageHelper.constructor | helper/indication-message-helper.cc:30-50 | starts without reports and names the cell by node type unless offline |
| IndicationHelpers.IndicationMessageHelper.AddeNBUePmItem | helper/lte-indication-message-helper.cc:39-57 | one step of the state machine; a throwing conversion leaves the state unchanged |
| IndicationHelpers.IndicationMessageHelper.AddgNBUeItem | helper/nr-indication-message-helper.cc:42-124 | one step of the state machine; a throwing conversion leaves the state unchanged |
| IndicationHelpers.IndicationMessageHelper.AddeNBCellPmItem | helper/lte-indication-message-helper.cc:60-74 | replaces the cell report and keeps the UE lists |
| IndicationHelpers.IndicationMessageHelper.AddgNBCellItem | helper/nr-indication-message-helper.cc:126-180 | replaces the cell report and keeps the UE lists |
| IndicationHelpers.IndicationMessageHelper.CreateIndicationMessage | helper/indication-message-helper.cc:60-77 | picks the format by target; the invariant makes every read of Format 2 legal; something is encoded exactly for "cell", or for "ue" with a UE reported |
| LastOf.LastPermutes | model/ric-control-message.cc:59-311 | an overwritten field does not depend on the order when at most one element can write it |
| Subscription.ProcessRicSubscriptionRequest | model/oran-interface.cc:152-290 | the flag-driven loops give the last request and function ids, the first acceptable action of each details IE in order, no rejections, and the id of the last action |
| Subscription.AcceptedCount | model/oran-interface.cc:183-258 | no more ids than IEs, each the first acceptable action of some details IE |
| Subscription.RequestIdStored | model/oran-interface.cc:192-201 | requestor and instance are those of the last request id, each modulo 2^16 |
| Subscription.FunctionIdStored | model/oran-interface.cc:203-209 | the function id is that of the last such IE, modulo 2^16 |
| Subscription.ActionIdStored | model/oran-interface.cc:240-255 | the returned action id is that of the last action of the last details IE with actions, modulo 2^8 |
| Subscription.NothingStored | model/oran-interface.cc:183-290 | ids that no IE gives are 0 |
| Subscription.FirstReportOrInsertAccepted | model/oran-interface.cc:230-255 | a details IE adds the id of the first action that is REPORT or INSERT, and no other, in the order of the IEs |
| Subscription.NothingElseAccepted | model/oran-interface.cc:183-266 | POLICY actions alone, and IEs of other kinds, add nothing |
| Subscription.OrderIndependent | model/oran-interface.cc:183-266 | with each kind at most once, no result depends on the order of the IEs |
| Subscription.ReturnedActionIsAccepted | model/oran-interface.cc:240-255 | the returned action id is the accepted one if and only if the first acceptable and the last action have the same low octet |
| Subscription.ReturnedActionWhenIdsDiffer | model/oran-interface.cc:240-255 | when no id is repeated, the returned action is the accepted one if and only if none follows it |
| Subscription.RepeatedIdAgrees | model/oran-interface.cc:240-255 | a concrete request with a repeated id where an action follows the accepted one and the two ids still agree |
| Subscription.ReturnedActionAmongAccepted | model/oran-interface.cc:183-266 | the returned id is among the accepted ones if and only if an earlier details IE accepted it or the last one's first acceptable action has its low octet |
| Subscription.ReturnedActionOfRequest | model/oran-interface.cc:183-266 | in a request with each kind at most once, the returned id is accepted if and only if the list has an acceptable action and the first such has the low octet of the last action |
| Subscription.NothingAccepted | model/oran-interface.cc:249-254 | with no acceptable action the last id is returned although nothing is accepted |
| Subscription.ReturnedActionDiffers | model/oran-interface.cc:240-255 | a concrete request in which action 1 is accepted and action 2 returned |
| ControlMessage.RicControlMessage.DecodeRicControlMessage | model/ric-control-message.cc:46-314 | each field is what the last IE that could set it stored, or unchanged; failed and other-format IEs set nothing |
| ControlMessage.RequestTypeIsRequestor | model/ric-control-message.cc:63-88 | the request type is numerically the stored requestor id once a request id was seen |
| ControlMessage.IdsStored | model/ric-control-message.cc:63-99 | the last request, function and call process ids are stored as they are |
| ControlMessage.FormatsStored | model/ric-control-message.cc:100-280 | the last header and the last message that decode to Format 1 are stored, whatever fails after them |
| ControlMessage.NothingStored | model/ric-control-message.cc:59-311 | a field that no usable IE gives stays as it was; failed, empty and other-format IEs are not usable |
| ControlMessage.DecodingIsOrderIndependent | model/ric-control-message.cc:59-311 | with each kind at most once, any permutation of the IEs leaves the same fields |
| ControlMessage.RicControlMessage.DecodeTarget | model/ric-control-message.cc:132-555 | the target cell after decoding depends on the last usable control message alone and is below 16 |
| TargetCell.GetTargetCell | model/ric-control-message.cc:349-555 | the unrolled walk is the leftmost descent through exactly three structures |
| TargetCell.DescendIffNested | model/ric-control-message.cc:379-499 | the descent finds a value if and only if the leftmost spine is that value inside that many structures |
| TargetCell.LeafGivesCell | model/ric-control-message.cc:503-555 | whatever stands right of the leftmost spine, the cell is the last octet of a bit or octet string, or the integer, modulo 16, and 0 for empty strings and other values |
| TargetCell.NoLeafGivesZero | model/ric-control-message.cc:349-499 | without a message, without items, or with any other spine the cell is 0 |
| TargetCell.SameSpineSameCell | model/ric-control-message.cc:349-555 | messages with the same leftmost spine name the same cell |
| TargetCell.OtherShapesGiveZero | model/ric-control-message.cc:349-555 | every other shape gives 0 |
| TargetCell.LowFourBitsOfLong | model/ric-control-message.cc:540-545 | masking a long is its Euclidean remainder modulo 16, negative values included |
| FunctionDescription.BuildList | model/kpm-function-description.cc:274-345 | fresh items with the table's names in order and ids from 1, no node shared |
| FunctionDescription.CloneMeasInfoList | model/kpm-function-description.cc:351-364 | a fresh list equal to its source entry by entry, no node shared |
| FunctionDescription.Description.MakeReportStyle | model/kpm-function-description.cc:368-385 | appends one style with its own copy of the selected list and keeps all lists disjoint |
| FunctionDescription.ExpectedTables | model/kpm-function-description.cc:368-391 | node type 0 gives the LTE tables, 1 the gNB tables and any other no entries, for cell and UE styles alike |
| FunctionDescription.FillKpmFunctionDescription | model/kpm-function-description.cc:271-391 | the five styles' lists are equal to their sources, pairwise disjoint and disjoint from the four sources, which still hold their tables and share no node with one another |

## Left out

- ASN.1 PER encoding and decoding, XER printing, freeing and ownership of ASN.1 structures, allocation failure.
- SCTP and e2sim transport, callbacks, threads, ns-3 objects and logging. The debug log of Format 1 reads a record before its null check; the model starts from the check.
- IndicationFormats.Format2.Fill: container sizes are unbounded, so the narrowing of sizes to `int` beyond 2^31 - 1 is not modelled.
- UeIdentity.FillUeId: identities longer than 8 octets, whose copy runs past the 64-bit variable, are outside its precondition.
- HeaderTime.TimeNowUsClock: a product of seconds that overflows the signed 64-bit type, undefined in C++, wraps modulo 2^64 in the model.
- TargetCell.GetTargetCell: an item whose optional value type is absent, which the walk dereferences unchecked, is not modelled.
- ControlMessage.RicControlMessage.DecodeRicControlMessage: the request type is its number; the range of the C++ enumeration is not modelled.
- Numerals.ToDoubleExact: real numbers stand for doubles, so infinities, NaN and casts of doubles beyond the range of long are not modelled.
- GetUeId, a null-checked walk to the first F1AP identity of a gNB UE, whose header type stays a parameter here; GetSecondaryCellIdHO, a direct read of a field.
- OctetString, BitString, NrCellId and Snssai wrappers, and the commented-out RRC, SINR and RAN parameter extraction code.
- TBCD_TO_PLMN_T, PLMN_T_TO_TBCD, PLMN_T_TO_MCC_MNC, and the IPv4 address and MaskedIMEISV macros, for which no round trip is claimed.
- Agreement of the metric names advertised in the function description with those reported by the helpers: fixed tables that differ.
- The Format 1 message does not carry the cell object id, so the model keeps it only as a field of the helper.
