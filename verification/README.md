# Ultra-wideband positioning: models and proofs

A Dafny model of the radio protocols, the ranging and positioning arithmetic
and the codecs of an indoor positioning stack. `dafny verify dfyconfig.toml`
verifies all of it.

Code that updates state is modelled by a class whose methods are proved
against functions on values; the properties of whole runs are lemmas about
these functions. Code that only computes is modelled by functions.

| file | models |
|---|---|
| Prelude.dfy | word sizes and a few facts about division |
| Tdma.dfy, TdmaSystem.dfy | slot allocation: the callbacks of one node; an anchor and any number of tags over a lossy radio |
| TdmaSlots.dfy | the slot of every tag after every step, in every run; when a tag leaves its grant, when two share a slot |
| TdmaAlive.dfy, TdmaNode.dfy | when the anchor keeps a slot for a tag, over all runs; what one node makes of beacons and requests, any anchors around it |
| TdmaTrace.dfy, TdmaTimeout.dfy | two runs that show the limits of what holds: a shared slot, and a slot used without a grant |
| Ccp.dfy, CcpRuns.dfy, CcpRelays.dfy, CcpSends.dfy | clock calibration: one node; slave runs and relay chains; when relays send, and what that makes of their chains; the master's timestamps over any sequence of sends |
| Slots.dfy, Nrng.dfy, NrngRound.dfy, NrngRuns.dfy, NrngSchedule.dfy | ranging with many anchors: bit ranks, frames and read-back, a whole round, many rounds, the reply schedule |
| RngMath.dfy | two-way-ranging formulas over wrapping counters |
| Vectors.dfy, Trilateration.dfy | closed-form trilateration over the reals |
| Selection.dfy | the four nearest anchors |
| Crc.dfy, Mavlink.dfy, MavParser.dfy, MavFrames.dfy | the MAVLink checksum, frames and stream; frames of version 2, and what makes a frame bad |
| LogIndex.dfy, LogFrames.dfy | the indexed log reader, and what it finds in a log of MAVLink frames |
| RingBuffer.dfy | the byte queue |
| JsonText.dfy, JsonEncode.dfy, JsonStrict.dfy, JsonCommas.dfy, JsonDecode.dfy, JsonErrors.dfy, JsonRoundTrip.dfy | numbers and characters, the JSON writer, its escapes and its commas, the JSON reader and what it refuses, and what survives the way through both |
| Sniffer.dfy | unwrapping the sniffer's clock |

Choices that matter when reading the claims:

- A slot map is a set of slot numbers. In the system of Tdma one step is one
  callback, or one transmission with the callbacks of whoever hears it, in any
  order. Two observers are added to the state: how often each bit was cleared
  in the anchor's map, and the last grant each tag acted on.
- Two tags never have current grants of one slot, in any run (GrantsAreExclusive).
  That every slot in use was granted holds exactly in the runs in which no
  superframe takes a tag to another slot than its last grant (SlotsAreGranted);
  a tag that keeps the anchor is safe from that (KeptAnchorNeverLeaves).
  UngrantedSlotByARun is a run that is not, and SlotSharedByARun one in which a
  revoked grant is still in use when its slot is granted again, which is the only
  way a beacon makes two tags share a slot (BeaconShares).
- Timestamps and intervals are numbers with the reduction modulo 2^32, 2^40 or
  2^64 written out where the code's types make it.
- The square root is a parameter with the law of a square root; `float` is
  `real`.
- In MAVLink the value of a field is the string of its bytes on the wire, and
  a registry of message classes is any map whose tables are consistent.
- In JSON, je_write appends; a stored string is the memory after strncpy. A
  text with a backslash-u escape, or with more escapes than the value buffer
  holds, leads out of the model.
- In the log reader, reading one message means finding the next message of a
  known kind from where the file stands; a condition looks at one message.

Where a promise of the code does not hold on all inputs, the model keeps the
code and the lemma gives the condition: SlotsAreGranted, StepShares,
RelayedEpochIsMasters, EvenlySpaced, SpacingIsAdvertised, StaleIff,
SingleSidedIsFlightTime, DsExactIff, SymmetricSingleSided, NearestFinderIsRight, Select, StrictDrains, VisibleIsWalk,
ArrayReadBackIff, TextFitsIff, NoControlIff, ProperIffClean, CorrectTime. SlotSharedByARun,
UngrantedSlotByARun, ReloadBreaks, StaleByARun and SecondObjectStartsWithComma are
inputs that fail.

## Model

| member | source | states |
|---|---|---|
| TdmaSlots.SlotsAreExclusive | firmware/lib/rtls_tdma/src/rtls_tdma.c:206-374 | One anchor, any number of tags, lossy radio: in every state of every run in which no superframe takes a tag away from its last grant, every tag that uses a ranging slot uses the one it was last granted; while the anchor has not cleared the bit since, its table names that tag, so no two tags share the slot |
| TdmaSlots.SlotsAreGranted | firmware/lib/rtls_tdma/src/rtls_tdma.c:211-231 | That condition is exact: in any run at all every slot in use is, all the way, the one last granted to its tag if and only if no superframe of the run makes a tag take a requested slot other than its last grant |
| TdmaSlots.StepStaysInGrant | firmware/lib/rtls_tdma/src/rtls_tdma.c:133-235 | Step by step: from a state in which every tag is in its last grant, a step of any kind leads to such a state exactly if it is not such a superframe |
| TdmaSlots.SuperframeTakes | firmware/lib/rtls_tdma/src/rtls_tdma.c:211-231 | After a superframe a node is in the slot it asked for exactly if it is a tag with a request and some row expires while, of the known beacon nodes not yet removed, there is one and all have accepted (or the node is master); otherwise its slot stays |
| TdmaSlots.TakesWhen | firmware/lib/rtls_tdma/src/rtls_tdma.c:117-130 | For a tag that knows no beacon node but the anchor: exactly if it has a request, the anchor's row stays and says accepted, and any other row expires |
| TdmaSlots.HearsSlot | firmware/lib/rtls_tdma/src/rtls_tdma.c:380-496 | After the anchor's beacon any tag, in whatever state a run can bring it, is in the slot it asked for and asks no more exactly if it is told that this slot is conceded and the anchor's row names the sender, or it has no slot and the signal is -95 dBm or more |
| TdmaSlots.StepMoves | firmware/lib/rtls_tdma/src/rtls_tdma.c:133-235 | The slot and the last grant of every tag after every step, in every run: the slot it asked for if a beacon concedes it or a superframe takes it, none after its reset, else the one before |
| TdmaSlots.KeptAnchorNeverLeaves | firmware/lib/rtls_tdma/src/rtls_tdma.c:215-228 | Runs in which no tag times the anchor out are among those in which no superframe moves a tag |
| TdmaSlots.StepShares | firmware/lib/rtls_tdma/src/rtls_tdma.c:133-235 | From a state in which no two tags share a slot, a step makes two share one exactly if it makes a tag take the slot it asked for while another is in it |
| TdmaSlots.BeaconShares | firmware/lib/rtls_tdma/src/rtls_tdma.c:298-371 | In runs that keep the tags in their grants, a beacon makes two tags share slot k exactly when it concedes k, heard, to the tag that asked for it while another tag is in slot k; and the anchor has cleared that other tag's bit since its grant |
| TdmaSystem.GrantsAreExclusive | firmware/lib/rtls_tdma/src/rtls_tdma.c:298-374 | In every state any run at all can reach: a tag whose last grant was made since the bit of its slot was last cleared is the one the anchor's table names, so no two tags have current grants of one slot |
| TdmaSystem.AnyStepKeepsGrants | firmware/lib/rtls_tdma/src/rtls_tdma.c:133-235 | The invariant behind GrantsAreExclusive is kept by every step, tags timing the anchor out included |
| TdmaSystem.RunKeeps | firmware/lib/rtls_tdma/src/rtls_tdma.c:133-235 | In every state of every run in which no tag times the anchor out more holds: a tag has a slot exactly if the anchor's row says accepted, and then asks for none |
| TdmaSystem.StepKeeps | firmware/lib/rtls_tdma/src/rtls_tdma.c:133-235 | Each of the eight kinds of step keeps that invariant |
| TdmaSystem.NoSecondGrant | firmware/lib/rtls_tdma/src/rtls_tdma.c:315-320 | From any reachable state on, in every run, tags timing the anchor out included: a recorded slot is not conceded a second time before its bit has been cleared |
| TdmaSystem.BitsAreClearedBy | firmware/lib/rtls_tdma/src/rtls_tdma.c:93-101 | Only a table reset, or a superframe that finds the row or the anchor's own row ten superframes silent, clears a bit, and at most once a step |
| TdmaSystem.BitStays | firmware/lib/rtls_tdma/src/rtls_tdma.c:93-101 | Along any run the number of clearings never falls, and while it stands the bit stays |
| TdmaSystem.SuperframeAgesRows | firmware/lib/rtls_tdma/src/rtls_tdma.c:206-236 | A superframe at a live anchor ages each row by one or clears it with its eleventh silent superframe, and takes exactly the bits of the cleared rows out of the slot map |
| TdmaSystem.AnchorTicksRows | firmware/lib/rtls_tdma/src/rtls_tdma.c:211-231 | The same for the rows from any index on |
| TdmaSystem.BeaconGrants | firmware/lib/rtls_tdma/src/rtls_tdma.c:298-374 | A beacon that concedes a slot found it free and enters it for the addressee of the frame; every other slot stays as it was |
| TdmaSystem.TagHears | firmware/lib/rtls_tdma/src/rtls_tdma.c:380-470 | A tag adopts a slot on a beacon exactly if it concedes the tag's own request to the tag and the anchor is known or heard at -95 dBm or more; otherwise slot and request stay |
| TdmaSystem.RequestsLeastFreeSlot | firmware/lib/rtls_tdma/src/rtls_tdma.c:549-586 | A waiting node asks for, and remembers, the least slot, of 1 to 14 for an anchor and of 16 to 19 for a tag, that no known beacon node heard in this superframe calls taken, and sends nothing exactly when there is none or that is slot 1 |
| TdmaTrace.SlotSharedByARun | firmware/lib/rtls_tdma/src/rtls_tdma.c:367-371 | A run of the code, no tag ever losing the anchor, at whose end two tags hold slot 16: a grant does not restart the silence counter of its row |
| TdmaTrace.SlotCanBeShared | firmware/lib/rtls_tdma/src/rtls_tdma.c:211-216 | Every predicate that contains the reachable states contains such a state, the first tag's grant being revoked and the second's not |
| TdmaTimeout.UngrantedSlotByARun | firmware/lib/rtls_tdma/src/rtls_tdma.c:222-228 | A run with such a superframe: a tag times the anchor out and ends up using slot 17, which nobody granted it, since the relearned row says accepted and another row expires |
| TdmaTimeout.SlotWithoutGrant | firmware/lib/rtls_tdma/src/rtls_tdma.c:470-478 | Every predicate that contains all reachable states contains such a state |
| TdmaAlive.KeptSlotInRuns | firmware/lib/rtls_tdma/src/rtls_tdma.c:206-237 | From every reachable state on, in every run: the anchor keeps the slot recorded for a tag exactly if it is not reset and no superframe is the eleventh since its own beacon slot, or since it last heard that tag range in that slot; its table then still names the tag |
| TdmaAlive.SlotIsKeptIff | firmware/lib/rtls_tdma/src/rtls_tdma.c:206-237 | The same from any state in which no row has been silent for more than ten superframes, which every step keeps |
| TdmaAlive.StepSilences | firmware/lib/rtls_tdma/src/rtls_tdma.c:21-33 | After any step the recorded row, and the own one, is as old as the superframes since the last frame from that tag in that slot, and the last own beacon slot, say, or the bit is cleared, exactly then |
| TdmaAlive.RangingEndsSilence | firmware/lib/rtls_tdma/src/rtls_tdma.c:21-33 | A ranging frame from the recorded address, or the own ranging slot, resets the silence of that row and changes nothing else |
| TdmaNode.BeaconIsNoted | firmware/lib/rtls_tdma/src/rtls_tdma.c:379-487 | After a beacon with a slot map, in any slot and with any anchors around: the row is alive and has the map, names the sender if it is known, waited for or loud enough, and the slot is taken in the own map; a node without a slot ignores senders it does not trust; no other row changes |
| TdmaNode.JoinsWithLastAcceptance | firmware/lib/rtls_tdma/src/rtls_tdma.c:444-462 | With several anchors: a node without a slot joins with the last acceptance missing, and takes along as its own map every slot it has heard and its own |
| TdmaNode.BeaconAnswers | firmware/lib/rtls_tdma/src/rtls_tdma.c:286-376 | A beacon concedes a pending request exactly if its bit is off, together with the map as it was; a conceded ranging slot is entered and settled, a conceded beacon slot stays pending, a refused one is dropped |
| TdmaNode.BeaconKeepsAlive | firmware/lib/rtls_tdma/src/rtls_tdma.c:286-340 | In its own beacon slot a node keeps its own row alive; without memory for the frame nothing is sent, counted or settled |
| TdmaNode.BeaconsAlternate | firmware/lib/rtls_tdma/src/rtls_tdma.c:326-376 | Without a request, of two beacons in a row one carries the position and one the map, to all |
| TdmaNode.HeardSlotIsRefused | firmware/lib/rtls_tdma/src/rtls_tdma.c:435-438 | A slot in which a node was heard is refused to whoever asks next |
| TdmaNode.RequestIsPending | firmware/lib/rtls_tdma/src/rtls_tdma.c:498-531 | A request taken by the master is not overwritten by any later one for five superframes, whatever is received, and with the sixth it is dropped or replaced by one received then |
| TdmaNode.ServiceNotes | firmware/lib/rtls_tdma/src/rtls_tdma.c:498-531 | The same for one service slot |
| Tdma.TdmaInstance.RemoveNode | firmware/lib/rtls_tdma/src/rtls_tdma.c:93-101 | node_rmv: the new table |
| Tdma.TdmaInstance.AddMe | firmware/lib/rtls_tdma/src/rtls_tdma.c:104-114 | node_add_me: the new table |
| Tdma.TdmaInstance.IsAllAccepted | firmware/lib/rtls_tdma/src/rtls_tdma.c:117-130 | node_all_accepted: true for a master, else some beacon node is known and all known ones have accepted |
| Tdma.TdmaInstance.TickRow | firmware/lib/rtls_tdma/src/rtls_tdma.c:211-231 | One round of the loop of superframe_cb |
| Tdma.TdmaInstance.SuperframeCb | firmware/lib/rtls_tdma/src/rtls_tdma.c:206-237 | superframe_cb equals its specification on the whole table |
| Tdma.TdmaInstance.BeaconMineCb | firmware/lib/rtls_tdma/src/rtls_tdma.c:286-376 | bcn_slot_cb_mine: new state and frame sent |
| Tdma.TdmaInstance.BeaconOtherCb | firmware/lib/rtls_tdma/src/rtls_tdma.c:379-496 | bcn_slot_cb_othr: new state, for any frame or none |
| Tdma.TdmaInstance.FindSlot | firmware/lib/rtls_tdma/src/rtls_tdma.c:552-578 | The two loops over the bitmask find the least free slot of the role's range, or none |
| Tdma.TdmaInstance.ServiceCb | firmware/lib/rtls_tdma/src/rtls_tdma.c:498-589 | svc_slot_cb: new state and frame sent |
| Tdma.TdmaInstance.RangingCb | firmware/lib/rtls_tdma/src/rtls_tdma.c:155-164 | The ranging branch of slot_cb |
| Tdma.TdmaInstance.SyncCb | firmware/lib/rtls_tdma/src/rtls_tdma.c:170-203 | uwb_ccp_sync_cb: the table reset |
| CcpRuns.ValidIffUnbroken | firmware/lib/rtls_ccp/src/rtls_ccp.c:252-262 | Over every run since a start the clock is valid exactly when the last 1, 2 or T frames came from one euid with no timestamp before the epoch read off the frame before; never for T above 8 |
| CcpRuns.CountFollowsStreak | firmware/lib/rtls_ccp/src/rtls_ccp.c:252-262 | The three-bit counter follows the length of the unbroken streak up to the threshold |
| CcpRuns.StreakIsUnbroken | firmware/lib/rtls_ccp/src/rtls_ccp.c:252-262 | The recursive streak is the longest unbroken ending of the run |
| CcpRuns.ChainConserves | firmware/lib/rtls_ccp/src/rtls_ccp.c:291-331 | Along every relay chain timestamp plus interval is conserved modulo 2^40, the interval loses and the timestamp gains the sum of the delays, and the repeat count equals the number of hops and stays within rpt_max |
| CcpRuns.RelayedEpochIsMasters | firmware/lib/rtls_ccp/src/rtls_ccp.c:264-290 | A listener behind any chain recovers the 40-bit master epoch exactly when the interval is a multiple of 2^32 and the accumulated delay modulo 2^40 lies in (0, 2^32]; then also the period, unless the interval is zero, and the 64-bit epoch up to the wraps of the delays |
| CcpRuns.LocalEpochDrifts | firmware/lib/rtls_ccp/src/rtls_ccp.c:268-274 | The local epoch behind a chain is the master's epoch on the listener's clock plus the flight times, less a drift in closed form that is zero for one hop only |
| CcpRelays.SettingsDecide | firmware/lib/rtls_ccp/src/rtls_ccp.c:277-325 | A chain of relays whose holdoffs, slots and antenna delays add up to at most 2^32 is readable behind every relay, and the listener at its end recovers the master epoch; if they add up to more than 2^32 by more than 511 a relay, it does not |
| CcpRelays.ChainDelay | firmware/lib/rtls_ccp/src/rtls_ccp.c:304-321 | The delay a chain adds is the sum of the settings, less at most 511 a relay, whether or not the clocks wrap |
| CcpRelays.HopDelay | firmware/lib/rtls_ccp/src/rtls_ccp.c:304-321 | One relay adds its hold time and antenna delay, less what is lost to the multiple of 512 |
| CcpRelays.RelaySendsAfterHold | firmware/lib/rtls_ccp/src/rtls_ccp.c:303-313 | A relay starts its radio at the last multiple of 512 that is not after reception plus a holdoff for each relaying and a blink for each slot modulo four |
| CcpRelays.SlotsKeepApart | firmware/lib/rtls_ccp/src/rtls_ccp.c:307-309 | Relays that count from the same time send exactly as many blinks apart as their slots, modulo four, differ |
| CcpRelays.RelaySendsForward | firmware/lib/rtls_ccp/src/rtls_ccp.c:299-325 | The frame a relay of the chain puts on air is the one its reception makes it send, under its own address and the master's euid |
| CcpRelays.DirectEpochIs | firmware/lib/rtls_ccp/src/rtls_ccp.c:264-270 | Heard directly, the epoch is the timestamp less the offset the frame names, modulo 2^64 |
| CcpRelays.RelayedEpochIs | firmware/lib/rtls_ccp/src/rtls_ccp.c:277-290 | Heard from a relay it is earlier again by what the interval misses to a multiple of 2^32 |
| CcpRelays.EpochsAgree | firmware/lib/rtls_ccp/src/rtls_ccp.c:264-290 | On its own clock a listener puts the epoch as long before the reception as the master before the timestamp, modulo 2^40 |
| CcpRelays.PeriodIsMasters | firmware/lib/rtls_ccp/src/rtls_ccp.c:264-270 | Heard directly, the period is that of the master modulo 2^24 |
| CcpSends.EvenlySpaced | firmware/lib/rtls_ccp/src/rtls_ccp.c:368-489 | From the start, at any 32-bit period and over any sequence of sends, completed, failed at start or aborted: the timestamps are evenly spaced modulo 2^64 by the first period exactly if, at every send that another one follows, a completed one has a period below 2^24 and a wrap of the 16-bit index keeps the spacing: the ring length divides 2^16, or frame 0 happens to hold the right time |
| CcpSends.EvenlyUpToWrap | firmware/lib/rtls_ccp/src/rtls_ccp.c:368-489 | With a positive period, and no two frames left over by 2^16 or an antenna delay of 512 or more: exactly if at most 2^16 sends advance the index or the ring length divides 2^16, and the period is below 2^24 or no completed send is followed by another that advances the index |
| CcpSends.PeriodAfter | firmware/lib/rtls_ccp/src/rtls_ccp.c:378-380 | Every completed send leaves the period modulo 2^24, also where the index wraps to frame 0; every other send leaves it as it is |
| CcpSends.ReloadBreaks | firmware/lib/rtls_ccp/src/rtls_ccp.c:378-380 | The input that fails: at a period of 2^24 the second frame repeats the timestamp of the first |
| CcpSends.IndexCounts | firmware/lib/rtls_ccp/src/rtls_ccp.c:368-489 | After any sequence of sends the index has advanced by the number of those not aborted, modulo 2^16 |
| CcpSends.AbortIsRepeated | firmware/lib/rtls_ccp/src/rtls_ccp.c:460-475 | An aborted send leaves every later timestamp as it would have been without it: the next send repeats its timestamp |
| CcpSends.StampSpacing | firmware/lib/rtls_ccp/src/rtls_ccp.c:460-475 | From one send to the next the timestamp advances by the period plus the antenna delay rounded down to a multiple of 512, modulo 2^64 |
| CcpSends.SpacingIsAdvertised | firmware/lib/rtls_ccp/src/rtls_ccp.c:460-499 | The spacing equals the advertised 40-bit interval exactly when the antenna delay is below 512 and the interval fits |
| Ccp.CcpInstance.RxComplete | firmware/lib/rtls_ccp/src/rtls_ccp.c:168-345 | The receive branch: new clock state, and the frame sent on, if any |
| Ccp.CcpInstance.CheckSequence | firmware/lib/rtls_ccp/src/rtls_ccp.c:252-262 | The validity test against its specification |
| Ccp.CcpInstance.SetEpochs | firmware/lib/rtls_ccp/src/rtls_ccp.c:264-290 | The epochs and the period read off a frame |
| Ccp.CcpInstance.Start | firmware/lib/rtls_ccp/src/rtls_ccp.c:556-600 | uwb_ccp_start forgets the master and the validity |
| Ccp.CcpMaster.Send | firmware/lib/rtls_ccp/src/rtls_ccp.c:368-489 | One send, completed, failed at start or aborted: the timestamp, the 40-bit interval, the ring of frames, the index, and the period a completed send takes back from the frame its index stands for |
| Ccp.RingWrap | firmware/lib/rtls_ccp/src/rtls_ccp.c:460-489 | The 16-bit index finds the frame just written exactly if it does not wrap, or the ring length divides 2^16 |
| Slots.NumberOfBits | firmware/lib/rtls_nrng/src/slots.c:43-51 | The loop counts the set bits of any 32-bit word |
| Slots.BitPosition | firmware/lib/rtls_nrng/src/slots.c:59-68 | The loop returns one more than the position of a single set bit |
| Slots.BitIndex | firmware/lib/rtls_nrng/src/slots.c:81-96 | SLOT_POSITION gives the rank of a set bit (up to bit 30), REMAINING_SLOTS the number of set bits above it less one |
| Slots.ClearLowestBit | firmware/lib/rtls_nrng/src/slots.c:45-48 | n & (n-1) has one set bit fewer |
| Slots.RankNumbersBits | firmware/lib/rtls_nrng/src/slots.c:81-96 | For every 32-bit mask the ranks are strictly increasing on the set bits and take exactly the values from 0 to popcount - 1 |
| Slots.RankStrict | firmware/lib/rtls_nrng/src/slots.c:81-96 | Ranks of set bits increase strictly |
| Slots.RankOnto | firmware/lib/rtls_nrng/src/slots.c:81-96 | Every number below the popcount is the rank of a set bit |
| Nrng.Respond | firmware/lib/rtls_nrng_ss/src/rtls_nrng_ss.c:207-256 | The responder's branch answers exactly if the bitfield names its slot, with the rank of its slot |
| Nrng.ResponderRank | firmware/lib/rtls_nrng/src/rtls_nrng.c:549-559 | In cell 0 the 14-bit field drops slots 14 and 15: a responder sees its slot exactly if it is below 14 and in the mask, and then its rank in the field is its rank in the mask |
| Nrng.ResponderInCell | firmware/lib/rtls_nrng/src/rtls_nrng.c:549-559 | In any cell slots below 14 answer exactly if requested, with the rank in the mask, and the number of the cell fills the bits from 14 on |
| Nrng.RoundsKeepApart | firmware/lib/rtls_nrng/src/rtls_nrng.c:543-546 | Unless the index wraps, a request for no fewer nodes than the one before and at most half of the frames keeps its answers in other frames |
| Nrng.NrngInstance.Request | firmware/lib/rtls_nrng/src/rtls_nrng.c:532-562 | nrng_request: index, sequence number, mask and bitfield on air, with no answer collected yet |
| Nrng.NrngInstance.OnResponse | firmware/lib/rtls_nrng_ss/src/rtls_nrng_ss.c:263-288 | Whatever number an answer to the current request carries: it becomes the answer of the requested slot whose frame it hits, that of its rank if it is one, and all others stay; other answers change nothing |
| Nrng.NrngInstance.AnsweredMask | firmware/lib/rtls_nrng/src/rtls_nrng.c:292-325 | The returned mask is exactly the set of slots that answered this request |
| Nrng.NrngInstance.ReadBack | firmware/lib/rtls_nrng/src/rtls_nrng.c:292-325 | Output j pairs the address and the time of flight of the j-th slot of the mask, marked updated exactly if it answered this request |
| NrngRound.Round | firmware/lib/rtls_nrng_ss/src/rtls_nrng_ss.c:207-288 | A whole round, request, any responders answering in any order and any number of times, read-back: exactly the requested slots below 14 of which a reply got through are read back, each with the address and flight time of its own last reply |
| NrngRound.CollectsLast | firmware/lib/rtls_nrng_ss/src/rtls_nrng_ss.c:263-288 | What is kept after any replies is the last of every answering slot |
| NrngRuns.ReadBackIff | firmware/lib/rtls_nrng/src/rtls_nrng.c:292-318 | After any requests and received frames a slot is read back exactly if it is requested and the answer its frame holds was filed under this request or one a multiple of 256 before it |
| NrngRuns.HoldsReports | firmware/lib/rtls_nrng/src/rtls_nrng.c:292-325 | Every state with room for its mask is one that AnsweredMask and ReadBack accept, the answers being those its frames show |
| NrngRuns.StaleIff | firmware/lib/rtls_nrng/src/rtls_nrng.c:292-318 | A frame is taken for an answer to the current request though it answers an earlier one exactly if that one is a multiple of 256 requests back and nothing was written over the answer; never before the 256th request |
| NrngRuns.CleanIff | firmware/lib/rtls_nrng/src/rtls_nrng.c:543-550 | A round begins with no such frame exactly if none holds an answer to the request 255 back, or that and a multiple of 256; the first 255 rounds always do |
| NrngRuns.StaleByARun | firmware/lib/rtls_nrng/src/rtls_nrng.c:543-550 | The input that fails: two slots requested 257 times, the second of which answers the first time only, and is read back at the end |
| NrngSchedule.RepliesDisjoint | firmware/lib/rtls_nrng_ss/src/rtls_nrng_ss.c:226-234 | Replies of different ranks, each with a round trip within the guard time, do not overlap at the initiator |
| NrngSchedule.InitialTimeoutCovers | firmware/lib/rtls_nrng/src/rtls_nrng.c:566-572 | The first receive timeout lasts beyond the end of every reply |
| NrngSchedule.RearmedTimeoutCovers | firmware/lib/rtls_nrng_ss/src/rtls_nrng_ss.c:289-299 | After any reply the re-armed timeout lasts beyond the end of every later reply |
| NrngSchedule.InitialTimeoutIsTight | firmware/lib/rtls_nrng/src/rtls_nrng.c:566-572 | It ends after the last reply by no more than the timing allowance, one guard time, the rounding of the units, and 511 |
| NrngSchedule.RearmedTimeoutIsTight | firmware/lib/rtls_nrng_ss/src/rtls_nrng_ss.c:289-299 | The re-armed one by no more than that and the duration of one frame |
| NrngSchedule.RequestedReplies | firmware/lib/rtls_nrng_ss/src/rtls_nrng_ss.c:226-299 | For two slots of a mask, ranks and number of nodes being those of its bits: their replies do not overlap, and the timeouts set with the request and after the first outlast them |
| RngMath.SingleSidedIsFlightTime | firmware/lib/rng_math/src/rng_math.c:49-65 | calc_tof_ss at flight time t, turnaround d and clock rates a and b, however the counters wrap: a t plus d (a - b (1 - skew)) / 2, hence a t exactly if the skew is 1 - a/b or the turnaround is zero |
| RngMath.DsExactIff | firmware/lib/rng_math/src/rng_math.c:67-101 | calc_tof_ds on any 32-bit intervals is the exact quotient exactly if the numerator fits 64 bits with sign, and not a number exactly if all intervals are zero |
| RngMath.DoubleSidedIsFlightTime | firmware/lib/rng_math/src/rng_math.c:67-101 | calc_tof_ds gives t 2ab/(a+b) for clock rates a and b, whatever the reply delays and however the counters wrap |
| RngMath.SymmetricIsQuarter | firmware/lib/rng_math/src/rng_math.c:115-131 | calc_tof_sym_ds is the quarter of the signed sum, rounded down, modulo 2^32, also for negative sums |
| RngMath.SymmetricAgrees | firmware/lib/rng_math/src/rng_math.c:67-131 | Without drift both double-sided formulas give the flight time |
| RngMath.SymmetricSingleSided | firmware/lib/rng_math/src/rng_math.c:49-112 | calc_tof_sym_ss agrees with calc_tof_ss at zero skew, halved down, exactly when the high half of the 64-bit transmit difference is even |
| RngMath.SymmetricSingleSidedNoWrap | firmware/lib/rng_math/src/rng_math.c:103-112 | For 32-bit timestamps: exactly when the responder's counter did not wrap |
| Trilateration.FrameIffNotCollinear | software/algorithm/multilateration/multilateration.c:32-66 | The divisions succeed, and a frame is found, exactly for anchors that are not on one line |
| Trilateration.FrameIsOrthonormal | software/algorithm/multilateration/multilateration.c:32-66 | For all non-collinear anchors ex, ey, ez are orthonormal, and the anchors lie where their coordinates say |
| Trilateration.SolutionsAreOnSpheres | software/algorithm/multilateration/multilateration.c:67-90 | For non-collinear anchors both solutions lie on all three spheres exactly if the height square is not negative |
| Trilateration.CommonPointIsSolution | software/algorithm/multilateration/multilateration.c:27-90 | Every common point of the three spheres is one of the two solutions |
| Trilateration.SolutionsAreMirrored | software/algorithm/multilateration/multilateration.c:67-90 | The two solutions are mirror images in the plane of the anchors, the first on the side of ez |
| Trilateration.ShortRangesMeetInPlane | software/algorithm/multilateration/multilateration.c:78-90 | For ranges that do not meet, the height square being at most zero, both solutions coincide, lie in the plane of the anchors and are equally off at all three; no other point of the plane is |
| Trilateration.NearestFinderIsRight | firmware/apps/rtls/src/rtls/trilateration.c:72-86 | With an exact fourth range nearest_finder returns the true point exactly if both solutions coincide, it is the second solution, or the fourth anchor is off the plane; the firmware variant exactly if both coincide, it is the first and that is lower than three metres or the fourth anchor off the plane, or it is the second and the first is not lower |
| Trilateration.NearestFinderPicks | firmware/apps/rtls/src/rtls/trilateration.c:72-86 | For any ranges it returns a point, the first exactly if it is strictly less off or, in the firmware, lower than three metres |
| Selection.FourDistances.Select | firmware/apps/rtls/src/rtls/rtls.c:266-295 | The nested loop outputs the min(4, valid) nearest distinct anchors in nondecreasing order and marks the rest not updated, exactly if no anchor reports 2^32 - 1 or at least three report less |
| Selection.FourDistances.Round | firmware/apps/rtls/src/rtls/rtls.c:268-293 | One round picks the last of the nearest eligible readings, or none |
| Selection.NextProgress | firmware/apps/rtls/src/rtls/rtls.c:266-295 | What one more round adds to the rows chosen so far |
| Selection.ProgressDecides | firmware/apps/rtls/src/rtls/rtls.c:266-295 | After four rounds the rows are right exactly under that condition |
| Selection.SelectionIsUnique | firmware/apps/rtls/src/rtls/rtls.c:266-295 | The requirement fixes the times of the rows: ties change only which of the equal anchors is listed |
| Crc.CrcIsSerial | software/linux/gateway/mavlink-1.0.13/pymavlink/mavutil.py:2186-2199 | On every buffer and from every register the byte-parallel checksum equals the bit-serial one with polynomial 0x8408 (section C.2 of RFC 1662, without the final complement) |
| Crc.EightBits | software/linux/gateway/mavlink-1.0.13/pymavlink/mavutil.py:2194-2198 | Eight single-bit steps are one round of the loop |
| Crc.CrcConcat | software/linux/gateway/mavlink-1.0.13/pymavlink/mavutil.py:2186-2199 | The checksum of a concatenation is the checksum of the second part from the register the first part leaves |
| Crc.BurstIsDetected | software/linux/gateway/mavlink-1.0.13/pymavlink/mavutil.py:2186-2199 | Buffers that differ only within two neighbouring bytes have different checksums |
| Crc.CrcInjective | software/linux/gateway/mavlink-1.0.13/pymavlink/mavutil.py:2186-2199 | Registers that differ stay different whatever bytes follow |
| Crc.X25Crc.Accumulate | software/linux/gateway/mavlink-1.0.13/pymavlink/mavutil.py:2186-2199 | The loop of accumulate computes the recursive checksum |
| Mavlink.MessageRoundTrip | software/linux/gateway/mavlink.py:217-244 | Decoding the frame of any message gives back its fields, number and sender |
| Mavlink.FrameRoundTrip | software/linux/gateway/mavlink.py:1616-1750 | The same for a payload with trailing zeros cut off |
| Mavlink.BodyRoundTrip | software/linux/gateway/mavlink.py:1700-1712 | Reordering by orders inverts packing in wire order |
| Mavlink.Trim | software/linux/gateway/mavlink.py:217-228 | The loop that strips trailing zeros: padding with zeros restores the payload |
| Mavlink.TofIsConsistent | software/linux/gateway/mavlink.py:1170-1202 | The tables of the TOF message agree with each other |
| Mavlink.DamageIsDetected | software/linux/gateway/mavlink.py:1656-1667 | A frame with one or two neighbouring bytes changed, other than marker, length, id and checksum, decodes to a checksum error |
| MavFrames.VerdictIs | software/linux/gateway/mavlink.py:1616-1667 | A whole frame of either version is a message exactly if it has no unknown flag, its class is known and its checksum fits, and else it is refused for the first of these |
| MavFrames.V2RoundTrip | software/linux/gateway/mavlink.py:1616-1750 | A version 2 frame, signed or not, decodes to its message, sender and number, or is refused for its flags |
| MavFrames.FrameIsItem | software/linux/gateway/mavlink.py:1507-1514 | The parser cuts a version 2 frame at its end, signature included, whatever follows |
| MavFrames.GarbageIsReportedOnce | software/linux/gateway/mavlink.py:1492-1505 | Strict parsing raises one error over any run of bytes that are no markers |
| MavFrames.MarkersEndGarbage | software/linux/gateway/mavlink.py:1492-1505 | A marker ends that run; robust parsing reports every such byte |
| MavParser.StreamRoundTrip | software/linux/gateway/mavlink.py:1421-1531 | For any messages with any noise free of markers before, between and after them, the parser yields exactly these messages, once, in order and numbered, and leaves no byte |
| MavParser.ChunkedRoundTrip | software/linux/gateway/mavlink.py:1455-1531 | The same however the stream is cut into chunks |
| MavParser.ChunksDoNotMatter | software/linux/gateway/mavlink.py:1486-1531 | For every byte stream at all, cutting it into chunks changes neither the items nor the rest |
| MavParser.StreamGrows | software/linux/gateway/mavlink.py:1421-1425 | What successive sends write is such a stream, numbered modulo 256 |
| MavParser.StrictDrains | software/linux/gateway/mavlink.py:1533-1544 | Without robust parsing one parse_buffer call returns all complete items exactly if every one is a valid message |
| MavParser.RobustDrains | software/linux/gateway/mavlink.py:1533-1544 | With robust parsing it always does |
| MavParser.ByteByByte | software/linux/gateway/mavlink.py:1455-1531 | After any bytes, one call per byte reports what that byte adds, without further draining |
| MavParser.MavLink.Pack | software/linux/gateway/mavlink.py:217-244 | pack builds the frame |
| MavParser.MavLink.Send | software/linux/gateway/mavlink.py:1421-1425 | send appends the frame and advances the sequence number modulo 256 |
| MavParser.MavLink.ParseFrame | software/linux/gateway/mavlink.py:1506-1531 | The part of the parser past the prefix test |
| MavParser.MavLink.ParseLegacy | software/linux/gateway/mavlink.py:1486-1531 | The parser takes exactly the first complete item off its buffer and answers as specified in both modes |
| MavParser.MavLink.ParseChar | software/linux/gateway/mavlink.py:1455-1484 | The same with new bytes appended |
| MavParser.MavLink.ParseBuffer | software/linux/gateway/mavlink.py:1533-1544 | The result, or the error, of draining, and the bytes left |
| MavParser.MavLink.ReadLoop | software/linux/gateway/sim_mav_wifi.py:88-93 | A reader that hands over single bytes gets exactly the messages of the whole stream |
| LogIndex.MMapLog.RecvMatch | software/linux/gateway/mavlink-1.0.13/pymavlink/mavutil.py:1568-1594 | recv_match returns the first message from here on, among those the latched kinds leave visible, with one of the types and meeting the condition |
| LogIndex.VisibleIsWalk | software/linux/gateway/mavlink-1.0.13/pymavlink/mavutil.py:1541-1566 | That equals the filtered front-to-back walk for every condition, exactly when no wanted message of a kind not latched comes before one of a latched kind |
| LogIndex.FirstIs | software/linux/gateway/mavlink-1.0.13/pymavlink/mavutil.py:1586-1594 | The first match is a match with none before it, and there is none only without any |
| LogIndex.MMapLog.SkipToType | software/linux/gateway/mavlink-1.0.13/pymavlink/mavutil.py:1541-1566 | The n-th call since the latch moves to the n-th message of the latched kinds in the order of the log, each once; past the last the offset stays. The same loop: DFReader.py |
| LogIndex.MMapLog.Smallest | software/linux/gateway/mavlink-1.0.13/pymavlink/DFReader.py:866-879 | The loop finds the kind whose next message comes first |
| LogIndex.NextOfKind | software/linux/gateway/mavlink-1.0.13/pymavlink/mavutil.py:1556-1563 | Of each kind the next message not taken is the n-th of all or a later one |
| LogIndex.MMapLog.InitArrays | software/linux/gateway/mavlink-1.0.13/pymavlink/mavutil.py:1454-1539 | The scan lists every message of a known kind under its kind, ascending, with counts and names |
| LogFrames.MessagesAreIndexed | software/linux/gateway/mavlink-1.0.13/pymavlink/mavutil.py:1486-1531 | A log of any valid frames of known classes, version 1 or 2, with time stamps and gaps between them: the scan has one record a message, in order, with its id, its offset and its size, and its frame stands there |
| LogFrames.LogIsFound | software/linux/gateway/mavlink-1.0.13/pymavlink/mavutil.py:1486-1531 | The same for any whole frames, of which those of known classes are found, and whatever follows the log |
| LogFrames.HeaderIsFrames | software/linux/gateway/mavlink-1.0.13/pymavlink/mavutil.py:1491-1507 | The header of a frame of either version is read as the id and the length the parser of mavlink.py reads |
| LogFrames.FramesAreValid | software/linux/gateway/mavlink.py:217-244 | Every frame the sender packs is such a frame |
| LogIndex.ScanAscending | software/linux/gateway/mavlink-1.0.13/pymavlink/mavutil.py:1486-1531 | The walk finds messages at strictly increasing offsets |
| LogIndex.ScanResumes | software/linux/gateway/mavlink-1.0.13/pymavlink/mavutil.py:1486-1531 | A walk begun at any message found is the rest of the walk that found it |
| LogIndex.MMapLog.Latch | software/linux/gateway/mavlink-1.0.13/pymavlink/mavutil.py:1543-1553 | The first call fixes the kinds: those asked for and the two always added, if they occur |
| RingBuffer.RBuf.Run | firmware/lib/rbuf/src/rbuf.c:3-80 | Any sequence of put, get and reset is answered, refusals included, as a bounded queue answers it |
| RingBuffer.NothingLostOrReordered | firmware/lib/rbuf/src/rbuf.c:24-51 | Without a reset, what was taken in equals what was handed out followed by what is still there |
| RingBuffer.RBuf.Put | firmware/lib/rbuf/src/rbuf.c:24-36 | put appends, or refuses when full |
| RingBuffer.RBuf.Get | firmware/lib/rbuf/src/rbuf.c:38-51 | get removes the oldest, or refuses when empty |
| RingBuffer.RBuf.Size | firmware/lib/rbuf/src/rbuf.c:63-80 | rbuf_size is the length of the queue, wrapped or not |
| Sniffer.UwbSniffer.CorrectTime | firmware/apps/wireshark/script/uwb_sniffer.py:254-297 | From the second packet on the result is the sniffer's clock without wrap-around, exactly if the local estimate is less than 2^31 off, or 2^31 off within one period |
| Sniffer.UnwrapIsExact | firmware/apps/wireshark/script/uwb_sniffer.py:277-297 | The overflow count chosen is the true one exactly under that condition |
| JsonRoundTrip.ObjectRoundTrip | firmware/lib/json/src/json_decode.c:221-529 | Reading back what was written for a flat object of booleans, integers, unsigned integers, strings and arrays with distinct keys succeeds and stores every value under its attribute, in whatever order the templates stand, and nothing else |
| JsonRoundTrip.WriteThenRead | firmware/lib/json/src/json_decode.c:719-726 | The writer object followed by the reader object do exactly that |
| JsonRoundTrip.WriteObject | firmware/lib/json/src/json_encode.c:45-57 | object_start, object_entry for each entry and object_finish write the text of the object |
| JsonRoundTrip.ReadsString | firmware/lib/json/src/json_decode.c:306-367 | The in_escape states undo the escapes of the writer, for every NUL-free string within the limits |
| JsonRoundTrip.TextFitsIff | firmware/lib/json/src/json_decode.c:481-488 | strncpy leaves the string terminated in its memory exactly if it is shorter than the memory |
| JsonRoundTrip.ArrayReadBackIff | firmware/lib/json/src/json_decode.c:534-555 | An array is read back and to its end exactly if it is not empty and not longer than the template allows: of an empty array the closing bracket stays unread |
| JsonRoundTrip.ReadsItems | firmware/lib/json/src/json_decode.c:556-717 | The elements of an array are read back in order, one element too many is refused |
| JsonRoundTrip.ReadsName | firmware/lib/json/src/json_decode.c:244-276 | A name of up to 30 characters without quotes selects its template |
| JsonRoundTrip.ReadsToken | firmware/lib/json/src/json_decode.c:368-385 | A token ends at a comma or brace, which is read again |
| JsonRoundTrip.ReadsBody | firmware/lib/json/src/json_decode.c:221-529 | From the first name to the closing brace, for any number of entries |
| JsonRoundTrip.FilledAt | firmware/lib/json/src/json_decode.c:386-516 | With distinct keys no entry overwrites another |
| JsonCommas.ProperIffClean | firmware/lib/json/src/json_encode.c:59-221 | For every value and either state of the comma flag: the text written is the one with a comma between neighbours and none elsewhere exactly if no array in it has two elements that set the flag, and the flag was not set before a value that sets it; and the flag is set afterwards exactly if it was or the value sets it |
| JsonEncode.SecondObjectStartsWithComma | firmware/lib/json/src/json_encode.c:144-170 | The input that fails: of two objects in an array the second one is written with a comma right behind its brace |
| JsonEncode.Encoder.EncodeValue | firmware/lib/json/src/json_encode.c:59-178 | json_encode_value: text written and comma flag, for every value |
| JsonEncode.Encoder.ObjectEntry | firmware/lib/json/src/json_encode.c:197-221 | json_encode_object_entry: text written, flag set |
| JsonEncode.Encoder.EncodeString | firmware/lib/json/src/json_encode.c:102-143 | The loop over the characters of a string |
| JsonStrict.EscapedIsStrict | firmware/lib/json/src/json_encode.c:102-143 | A reader that takes the standard escapes only, and no quote, slash, backslash or named control character without one, takes every string back from its text |
| JsonStrict.NoControlIff | firmware/lib/json/src/json_encode.c:102-143 | No control character is left in the text exactly if the string has none but those with an escape of their own |
| JsonDecode.JsonDecoder.ReadObject | firmware/lib/json/src/json_decode.c:221-529 | The character loop of json_internal_read_object gives the status and store of the state machine |
| JsonDecode.JsonDecoder.ReadArray | firmware/lib/json/src/json_decode.c:534-717 | json_read_array: status, elements and the position left |
| JsonDecode.JsonDecoder.SkipWhite | firmware/lib/json/src/json_decode.c:87-97 | json_skip_ws stops at the first other character, at the end one character back |
| JsonDecode.JsonDecoder.ReadN | firmware/lib/json/src/json_util.c:79-93 | json_readn never hands over the last character |
| JsonText.NumberPrinted | firmware/lib/json/src/json_decode.c:447-475 | strtoll in base 0 reads a printed decimal number back, up to its end |
| JsonErrors.UnexpectedIsRefused | firmware/lib/json/src/json_decode.c:223-304 | After any space, what stands in the place of a brace, a name, a value or a bracket and is none is refused, each with its error |
| JsonErrors.BlanksAreSkipped | firmware/lib/json/src/json_decode.c:223-304 | Space before the object, a name or a value, and behind an array, changes nothing |
| JsonErrors.BlanksBehindValue | firmware/lib/json/src/json_decode.c:386-529 | Nor does space behind a value |
| JsonErrors.BlanksInArrays | firmware/lib/json/src/json_decode.c:534-560 | Nor before an array or an element |
| JsonErrors.WrongKindIsRefused | firmware/lib/json/src/json_decode.c:420-432 | A value in quotes for an attribute that is no string, or one without for a string, is refused |
| JsonErrors.BadTrailIsRefused | firmware/lib/json/src/json_decode.c:517-527 | Behind a value only a comma or a brace is taken |
| JsonErrors.LongNameIsRefused | firmware/lib/json/src/json_decode.c:270-276 | A name of more than 30 characters is refused |
| JsonErrors.UnknownNameIsRefused | firmware/lib/json/src/json_decode.c:244-260 | So is a name that no template has |
| JsonErrors.LongStringIsRefused | firmware/lib/json/src/json_decode.c:316-322 | A string longer than its memory or than 512 characters is refused |
| JsonErrors.LongTokenIsRefused | firmware/lib/json/src/json_decode.c:378-384 | So is a token of more than 512 characters |
| JsonErrors.SeekIs | firmware/lib/json/src/json_decode.c:386-418 | Of templates of one name in a row the value goes to the first it looks like, else to the last |
| JsonErrors.NoArrayIsRefused | firmware/lib/json/src/json_decode.c:540-548 | What is no array is refused |
| JsonErrors.NoItemIsRefused | firmware/lib/json/src/json_decode.c:600-690 | So is an element that is no number, true or false |
| JsonErrors.NoCommaIsRefused | firmware/lib/json/src/json_decode.c:700-712 | And one followed by neither comma nor bracket |

## Left out

- Tdma.TdmaInstance.ServiceCb: a requested slot number of 20 or more on air, which rtls_tdma.c does not check, has no row in the node table; the contract requires the number to be a slot.
- Tdma.TdmaInstance.BeaconOtherCb: a frame is a fresh one or none. After a receiver that failed to start, rtls_tdma_slot_listen returns true unless the timeout flag is set, and the callback reads what the buffer still holds; so does svc_slot_cb.
- LogIndex.MMapLog.RecvMatch: the log is undamaged and a type is asked for. Messages whose checksum does not match, the BAD_DATA results of recv_msg and calls without a type do not occur, and reading one message is the function Scan, the next message of a known kind.
- Hardware, timers, queues, semaphores and their interrupt races: each callback is one step.
- Positions in beacons (LOCA contents), PAN identifiers and message lengths on air.
- Several anchors: the system has one anchor; anchors joining through beacon slots are in the callbacks of Tdma but not in the runs.
- Floating-point rounding in ranging and trilateration; the arithmetic is over the reals.
- The operating-system epoch and the wall-clock conversions of rtls_ccp.c.
- The double-sided ranging variants of the many-anchor protocol, and builds with CELL_ENABLED.
- MAVLink signing, the native parser, callbacks and packet counters; struct.pack of single field values.
- The tables of the dialect other than TOF: the theorems hold for every consistent registry.
- Conditions of recv_match that read messages other than the one returned.
- DFReader's own init_arrays with its format messages; its skip_to_type is the one modelled.
- JSON reals, nulls, enumerations, checked and ignored attributes, single characters, arrays of strings and of objects, and the defaults of attributes that do not occur.
- JSON round trip of strings as long as their memory, empty arrays and arrays longer than the template: they do not come back (TextFitsIff, ArrayReadBackIff).
