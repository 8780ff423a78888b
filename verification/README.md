# meshctl: the model and its properties

meshctl turns one YAML inventory into a configuration per node (node ids, tunnel addresses, listen
ports, interface names, BIRD and WireGuard files), and its agent then keeps adjusting the OSPF
costs in the BIRD file from probe measurements.  This project models that path in Dafny:

1. **Cost engine** (`cost_bands`, `cost_tracks`, `cost_model`, `cost_engine`, `cost_runs`, `cost_holds`,
   `band_config`, `bandwidth`): the per-peer state machine with smoothing, hysteresis thresholds, a
   hold counter, a failure counter and hot reload.  `CostEngine.Engine` and `CostEngine.LinkState`
   are classes updated in place; every method is proved to be one `CostModel.Step` of the engine
   as a value, and the results about whole runs are about `CostModel.Run`.
2. **Renderer and rewriter** (`text`, `line_scan`, `bird_rewriter`, `rewrite_meaning`, `bird_template`,
   `bird_layout`, `agent_costs`, `agent_rounds`, `agent_history`, `deployment`, `site_files`): the
   template as the lines it prints, what the printed file says when it is read, the agent's line
   scanner and what it does to any text, the proof that editing the text is rendering it anew, whole
   probe rounds with the file they leave, histories of rounds and syncs, and the way from a validated
   inventory to the text the agent edits.
3. **Topology and allocation** (`ordering`, `allocator`, `inventory`, `mesh`, `generator`, `node_entries`):
   validation, ids, links, addresses, ports, both ends of every tunnel.  `Inventory.Config` fills in
   ids in place; `Mesh.AssignAddresses` writes into the array of links.  Ids and ports are both "the
   k-th smallest free integer from a base" (`Allocator.NthFree`).
4. **Probes** (`big_endian`, `probe_protocol`, `probe_round`): the packet codec on bytes, the delay
   arithmetic in wrapping 64-bit integers, and the agent's probe round.

`prelude` and `iteration` hold arithmetic and fixed-point lemmas.  The whole project is checked with
`dafny verify dfyconfig.toml`.

## What the main results say

- **Stability of costs.**  Under a constant delay every track, reachable or not, stops changing
  within a number of samples that can be read off beforehand; with ordered Ups, equal ones included,
  this holds *if and only if* no Down lies above its own Up, where of bands with equal Ups only the
  last one matters.  On the way the band moves monotonically, and it lands exactly where the scans
  from its first band at the settled delay do.  Over any history, with failures and reloads to any
  bands interleaved, the holds paid for all band switches add up to at most the number of successes.
  A success moves a band *if and only if* it completes a streak, as long as the entered band's hold,
  of successes that all found the old band and called for the new one.
- **Text.**  For every rendered file and cost map the agent's edit is character for character the
  file rendered with the new costs; on arbitrary text exactly the cost lines in the block of a mapped
  interface change, and two edits are one edit with the merged map.  Read back, the file of a node has
  each OSPF protocol exactly if it has such links, with the interfaces of exactly these.
- **From inventory to file.**  For a node that passed validation and the collision check, generated
  and synced, the edit shows the engine's current cost of every peer.  With all probed peers settled
  in their bands, a file that shows the current costs still does after every possible probe round
  *if and only if* no printed peer is down at a price other than its band's.  Over any history of
  syncs and rounds the file is that of the last sync with the costs as of the last report since.
- **Reports.**  Over any history the failures that report a change balance the times a peer goes down
  and comes up; a reload keeps "one report for each outage" *if and only if* the failures counted so
  far lie on the same side of the old limit and of the new one.
- **Agreement.**  The two ends of every link, each generated separately, dial each other's listen
  port, swap addresses, and agree on mode and penalty.  Nothing depends on the order of the YAML list.
- **Arrival order.**  A probe round gives the same state and the same report whatever order its
  results arrive in.

## Where the code differs from what is written about it

The model follows the code in each case.

- The repository's `README.md:352` and the comment at `internal/cost/engine.go:81` call the bandwidth
  penalty additive; `CurrentCost` multiplies by `(1000 + 10*penalty)/1000`.  The two agree exactly
  under the condition of `Bandwidth.AdditiveIff`, and differ for the least default cost
  (`Bandwidth.NotAdditive`).
- The example at `README.md:361` gives penalties of 6 and 16; the code cuts both quotients and gives 7
  and 17 (`Bandwidth.DocumentedExample`; exactly when the two differ: `Bandwidth.PenaltyAsDocumentedIff`).
- `internal/probe/protocol.go:137` says a result is invalid if the forward delay is negative; the
  code also rejects a forward delay of zero (`ProbeProtocol.InvalidIffNegativeIff`).
- The documentation asks for consecutive probes in a new band.  A failed probe does not reset the
  hold counter: between reloads a track depends on its successful samples alone
  (`CostRuns.TrackIsFed`), and a hold of 2 is met by a success, a failure and a success
  (`CostRuns.HoldSurvivesFailure`).  Starting the count over at a failure would make no difference to
  the band under any later samples exactly if no count is running (`CostTracks.FailureCountsIff`).
- `RecordSuccess` reports a moved band, not a changed cost.  For a settled peer the two agree for
  every valid sample exactly if the peer is not down or being down costs what its band does
  (`CostRuns.SuccessReportsCostIff`); an unreported recovery is reached after one failure at a limit
  of 1 (`CostRuns.RecoveryGoesUnreported`).  The file then stays behind
  (`AgentRounds.RoundKeepsFileCurrentIff`).
- A reload that changes the failure limit can have an outage reported twice or not at all
  (`CostRuns.LimitMoves`), exactly if the failures counted so far lie between the old limit and the
  new one (`CostRuns.ReloadKeepsReportsIff`, for any number of reloads `CostRuns.OutageReportedOnceIff`).
- Costs are said to be adjusted when a band changes, but every sync that finds an edited file puts the
  generated one back (`internal/agent/apply.go:656-662`).  Until the next report the file shows the
  generated costs, which are the current ones exactly under the condition of
  `AgentHistory.SyncIsCurrentIff`; `AgentHistory.SyncForgetsCosts` is a sync of an unchanged
  configuration that takes a cost from 20 to 100.
- A peer that a later configuration drops is never cleared.  If another peer takes over its interface
  the wrong cost can be written (`AgentHistory.StaleIfaceSpoils`), exactly if the two differ in cost
  (`AgentCosts.TextShowsCurrentCostsIff`).
- `Unmarshal` accepts packets of unknown type, which `Marshal` refuses, and a request with responder
  timestamps loses them on the wire (`ProbeProtocol.RoundTrip`, `ProbeProtocol.Remarshal`).
- The estimated clock offset does not always follow a shift of the responder's clock: rounding
  toward zero can be off by one (exactly when: `ProbeProtocol.OffsetFollowsShiftIff`; an input:
  `ProbeProtocol.OffsetMissesShift`).
- The uint32 product of cost and penalty factor wraps from a penalty of 6454 on
  (`Bandwidth.NoWrapIff`), which the penalty formula reaches (`Bandwidth.WrapIsReached`).
- An engine without bands is moved by a reload of its own parameters (`CostRuns.ReloadWithoutBandsMoves`);
  with bands in force it never is (`CostRuns.ReloadIsNoOp`), and the agent never reloads to no bands
  (`AgentCosts.SyncKeepsBands`).
- Strictly increasing Ups are validated, but cutting to milliseconds can merge two of them
  (`BandConfig.TransportMergesUps`), exactly if two neighbours fall into one millisecond
  (`BandConfig.TransportKeepsOrderIff`); the stability results do not need strictness.

## Model

| member | source | states |
|---|---|---|
| CostBands.Climb | internal/cost/engine.go:247-254 | The up-scan: all bands passed have their Up met, the next one does not |
| CostBands.Descend | internal/cost/engine.go:257-265 | The down-scan: all bands left are undercut, the one reached is not |
| CostBands.TargetStaysIffInWindow | internal/cost/engine.go:247-272 | The scans call for no other band exactly when the delay is in the window [Down[c], Up[c+1]) of the current one |
| CostBands.TargetInRange | internal/cost/engine.go:281 | Reading the hold of a target other than the current band is always in range |
| CostBands.Highest | internal/cost/engine.go:247-254 | Reference definition: the highest band whose Up is met |
| CostBands.TargetCharacterised | internal/cost/engine.go:247-265 | The two scans equal a declarative target, both directions |
| CostBands.ScansExclusive | internal/cost/engine.go:247-265 | An up-move and a down-move are never both called for |
| CostBands.TargetIdempotent | internal/cost/engine.go:247-265 | target(target(c,d),d) = target(c,d), for Down <= Up where the next Up is larger or there is none |
| CostBands.TargetIdempotentIff | internal/cost/engine.go:247-265 | It holds for all c and d exactly under that condition, for bands in any order |
| CostBands.TargetMonotoneInDelay | internal/cost/engine.go:247-265 | More delay never means a lower target |
| CostBands.TargetMonotoneInBand | internal/cost/engine.go:247-265 | A higher current band never means a lower target |
| CostRuns.EwmaIsWeightedMean | internal/cost/engine.go:294-296 | The new average is alpha times the sample plus the rest times the old one, cut toward zero |
| CostBands.SmoothBetween | internal/cost/engine.go:213-223 | A smoothed value stays in every interval holding the old value and the sample |
| CostBands.SmoothingAverages | internal/cost/engine.go:294-296 | For alpha in [0,1], truncation included, the new average lies between the old one and the sample |
| CostBands.RestsAt | internal/cost/engine.go:294-296 | An average rests exactly if the sample is not below it and alpha*(sample - average) < 1 |
| CostTracks.FeedIsRepeat | internal/cost/engine.go:204-228 | A stream of equal samples is that sample repeated |
| CostTracks.WindowStability | internal/cost/engine.go:204-228 | With smoothed delay and all samples in the band's window the band never moves |
| CostTracks.StepUp | internal/cost/engine.go:243-291 | A constant delay at or above the smoothed one moves the band only up, never past what the scans from its start call for nor past max(start, highest band met) |
| CostTracks.StepDown | internal/cost/engine.go:243-291 | The mirror image: only down, never below what the scans from its start call for at that delay |
| CostTracks.TargetFloor | internal/cost/engine.go:257-265 | With ordered Ups that is at least min(start, highest band met) |
| CostTracks.HoldMeasureDrops | internal/cost/engine.go:267-290 | With the delays at rest every evaluation that changes something comes nearer to rest |
| CostTracks.HoldSettles | internal/cost/engine.go:267-290 | Once the delays rest, as many samples as the largest hold settle the whole track |
| CostTracks.Settling | internal/cost/engine.go:204-228 | Under one sample repeated for ever every track settles within SettlingTime |
| CostTracks.SettledInWindow | internal/cost/engine.go:267-272 | A settled track is in its band's window, with nothing pending |
| CostTracks.EvaluatedCounts | internal/cost/engine.go:274-290 | After an evaluation a track counts for no band, or for its target and below that band's hold |
| CostTracks.FailureCountsIff | internal/cost/engine.go:274-290 | Starting the hold over at a failure makes no difference under any later samples exactly if no count is running |
| CostTracks.SettledDelay | internal/cost/engine.go:214-223 | From above the delay settles at the sample, from below with alpha*(sample - smoothed) < 1 |
| CostTracks.RiseLands | internal/cost/engine.go:204-291 | A rise settles in exactly the band that the scans from its start call for at the settled delay |
| CostTracks.FallSettles | internal/cost/engine.go:204-291 | So does a fall, for any smoothing between old value and sample |
| CostTracks.FallLands | internal/cost/engine.go:204-291 | With exponential smoothing a fall settles in exactly the band called for at the sample |
| CostTracks.FlapsForEver | internal/cost/engine.go:247-290 | A Down above its own Up, the next Up being larger, gives a track that never settles, whatever the holds |
| CostTracks.SettlesIffHysteretic | internal/cost/engine.go:243-291 | With ordered Ups, equal ones included, every track settles if and only if no Down lies above its Up, the last of equal Ups counting |
| CostHolds.CounterIsStreak | internal/cost/engine.go:274-279 | From a zero counter on, the counter is the length of a run of successes that found this band and called for the pending one |
| CostHolds.MovesIffStreak | internal/cost/engine.go:274-290 | A sample moves the band from c to b if and only if it completes a run, as long as b's hold, of samples that found c and called for b |
| CostHolds.OtherBandStartsOver | internal/cost/engine.go:274-279 | A call for another band starts the count over: an input |
| CostHolds.EngineMovesIffStreak | internal/cost/engine.go:204-291 | The same of the engine between two reloads, whatever lies between the successes |
| CostEngine.LinkState.constructor | internal/cost/engine.go:54 | A new record is all zero |
| CostEngine.Engine.constructor | internal/cost/engine.go:40-48 | A new engine knows no peer |
| CostEngine.Engine.GetState | internal/cost/engine.go:51-58 | The peer's record, a fresh zero one if there was none; no two peers share a record |
| CostEngine.Engine.SetStaticCost | internal/cost/engine.go:67-70 | One step of the engine as a value |
| CostEngine.Engine.SetFallbackCost | internal/cost/engine.go:76-79 | One step of the engine as a value |
| CostEngine.Engine.SetBandwidthPenalty | internal/cost/engine.go:83-86 | One step of the engine as a value |
| CostEngine.Engine.RecordFailure | internal/cost/engine.go:232-239 | One step of the engine as a value; true exactly when the count reaches the limit |
| CostEngine.Engine.RecordSuccess | internal/cost/engine.go:204-228 | One step of the engine as a value; true exactly when the band moves |
| CostEngine.Engine.SmoothIn | internal/cost/engine.go:208-223 | The delay to evaluate, half the round trip when there is none, and both averages |
| CostEngine.Engine.EvaluateBand | internal/cost/engine.go:243-291 | The loops compute the recursive target and the hold counter its evaluation |
| CostEngine.Engine.UpdateConfig | internal/cost/engine.go:117-132 | A reload is one step, whatever the order of the map, and replaces no record |
| CostEngine.Engine.ClampBands | internal/cost/engine.go:123-131 | Indices are pulled into the new range, all else of the record stays |
| CostEngine.Engine.IsStatic | internal/cost/engine.go:167-170 | True exactly for peers with a static cost |
| CostEngine.Engine.CurrentCost | internal/cost/engine.go:174-198 | The cost of the engine as a value; CostRuns.CostFromHistory says what that is |
| CostRuns.StepIsLocal | internal/cost/engine.go:51-58 | An event other than a reload touches no peer but its own |
| CostRuns.ChurnBound | internal/cost/engine.go:274-290 | Over any run: holds of all switches plus the hold counter <= successful probes |
| CostRuns.SwitchesBounded | internal/cost/engine.go:274-290 | With all holds at least h: h * switches <= successful probes |
| CostRuns.DelayWithinSamples | internal/cost/engine.go:213-218 | The smoothed delay lies between the extremes of the recorded delays, over any run |
| CostRuns.ZeroOnlyWithoutSamples | internal/cost/engine.go:213-218 | With positive delays the average is zero exactly if none was recorded |
| CostRuns.DelayOfSample | internal/cost/engine.go:208-212 | The delay is the one-way delay if positive, else half the round trip |
| CostRuns.RttWithinSamples | internal/cost/engine.go:219-223 | The smoothed round trip stays between the recorded round trips |
| CostRuns.TrackIsFed | internal/cost/engine.go:204-239 | Between reloads a track is a function of the peer's own samples |
| CostRuns.HoldSurvivesFailure | internal/cost/engine.go:232-239 | A run in which a hold of 2 is met by success, failure, success |
| CostRuns.CountsBetweenReloads | internal/cost/engine.go:204-291 | Between reloads every reachable track is one that evaluations leave |
| CostRuns.BandStays | internal/cost/engine.go:204-228 | While all delays stay in the window no probe of the peer ever reports a change, failures included |
| CostRuns.EngineSettles | internal/cost/engine.go:204-228 | After SettlingTime equal samples a further one changes nothing and reports nothing |
| CostRuns.EngineStepUp | internal/cost/engine.go:243-291 | Monotone rise without overshoot, for the engine amid arbitrary other events |
| CostRuns.EngineStepDown | internal/cost/engine.go:243-291 | Monotone fall amid arbitrary other events, never below the band called for at the sample |
| CostRuns.EngineFallLands | internal/cost/engine.go:204-291 | After SettlingTime equal samples below, the engine has the peer in exactly the band called for at the sample |
| CostRuns.EngineRiseLands | internal/cost/engine.go:204-291 | After SettlingTime equal samples above, in exactly the band called for at the settled delay |
| CostRuns.KnownIffMentioned | internal/cost/engine.go:174-178 | The engine knows a peer exactly if some call was about it |
| CostRuns.FailuresFromHistory | internal/cost/engine.go:204-239 | The failure count is the length of the trailing run of failures |
| CostRuns.SettingsFromHistory | internal/cost/engine.go:67-86 | Static cost, fallback and penalty are the last ones set |
| CostRuns.ParamsFromHistory | internal/cost/engine.go:117-121 | The parameters in force are those of the last reload |
| CostRuns.ReloadLands | internal/cost/engine.go:117-132 | A reload keeps bands that exist, puts others to the last, gives up a missing pending band with its count, and changes nothing else |
| CostRuns.LostBandIsDearest | internal/cost/engine.go:124-126 | A peer that loses its band gets none cheaper than any that is left |
| CostRuns.TracksInRange | internal/cost/engine.go:123-131 | With bands always present both band indices stay in range over every run |
| CostRuns.IndicesBelowBands | internal/cost/engine.go:123-131 | With bands in force now both indices lie below their number, whatever was in force before |
| CostRuns.CostFromHistory | internal/cost/engine.go:174-198 | The cost of a known peer as a function of the history alone, histories without bands included |
| CostRuns.ReloadIsNoOpIff | internal/cost/engine.go:117-132 | Reloading the parameters in force changes nothing exactly if all indices are in range |
| CostRuns.ReloadIsNoOp | internal/cost/engine.go:117-132 | Hence it changes nothing in any reachable state with bands in force |
| CostRuns.ReloadWithoutBandsMoves | internal/cost/engine.go:124-126 | Without bands it moves a zero band to -1 |
| CostRuns.OutageReportedOnce | internal/cost/engine.go:232-239 | In a stretch without a success, reloads that keep the limit included, exactly one failure reports, if the limit is passed |
| CostRuns.AlarmBalance | internal/cost/engine.go:232-239 | Over any history: reports + downs by reload - recoveries = down at the end - down at the start |
| CostRuns.OutageReportedOnceIff | internal/cost/engine.go:232-239 | Without a success of a peer that starts up, outages are reported right exactly if reloads bring it up as often as down |
| CostRuns.ReloadKeepsReportsIff | internal/cost/engine.go:117-132 | For one reload that is so exactly if the failures before it lie on the same side of both limits |
| CostRuns.LimitMoves | internal/cost/engine.go:232-239 | Inputs on the failing side: an outage reported twice, and one not at all |
| CostRuns.SuccessReportsCost | internal/cost/engine.go:204-228 | For a peer not down at a price of its own, every success reports exactly if the cost changes |
| CostRuns.SuccessReportsCostIff | internal/cost/engine.go:204-228 | For a settled peer that is so for every valid sample if and only if it is not down at a price of its own |
| CostRuns.RecoveryGoesUnreported | internal/cost/engine.go:204-228 | A reachable recovery that moves the cost from 65535 to 20 and reports nothing |
| BandConfig.ValidateCostBands | internal/config/config.go:489-508 | Accepts exactly the valid bands and otherwise gives the first complaint |
| BandConfig.ComplaintIsTrue | internal/config/config.go:493-506 | Each complaint says what is the matter with its band |
| BandConfig.NeighboursOrder | internal/config/config.go:501-505 | Comparing neighbours orders all Ups and costs |
| BandConfig.MillisecondsAre | internal/generate/bird.go:106-113 | A threshold comes out as whole milliseconds, less than one below, toward zero |
| BandConfig.TransportedBand | internal/agent/agent.go:249-257 | Up and Down are each cut, cost and hold arrive as they are |
| BandConfig.TransportKeepsHysteresis | internal/generate/bird.go:106-113 | Truncation to milliseconds keeps what stability needs |
| BandConfig.TransportKeepsOrderIff | internal/generate/bird.go:106-113 | Ups stay strictly increasing exactly if no two neighbours fall into one millisecond |
| BandConfig.TransportMergesUps | internal/generate/bird.go:106-113 | Valid bands exist for which they do not |
| BandConfig.ValidatedBandsSettle | internal/agent/agent.go:249-272 | Every validated configuration, once transported, settles under every constant sample |
| Bandwidth.PenaltyIsExact | internal/cost/engine.go:99-111 | The guards and the conversion cut nothing off: the penalty is the formula's |
| Bandwidth.PenaltyAntitone | internal/cost/engine.go:99-111 | Less bandwidth never means less penalty |
| Bandwidth.NoWrapIff | internal/cost/engine.go:193-197 | No 16-bit cost wraps exactly for penalties up to 6453 |
| Bandwidth.WrapIsReached | internal/cost/engine.go:99-111 | A 1 Mbps link with reference 6475 gets penalty 6454, and the cost 65535 wraps to 196 |
| Bandwidth.AdditiveIff | internal/cost/engine.go:193-197 | The scaled cost is cost plus penalty exactly without a penalty or for costs of 100 and little more |
| Bandwidth.NotAdditive | internal/cost/engine.go:193-197 | A penalty of 20 on the cost 20 gives 24, not 40 |
| Bandwidth.PenaltyAsDocumentedIff | internal/cost/engine.go:99-111 | Cutting both quotients gives the documented formula exactly under the stated condition on the remainders |
| Bandwidth.DocumentedExample | README.md:361 | The documented example comes out as 7 and 17, not 6 and 16 |
| Bandwidth.ScalingStrict | internal/cost/engine.go:193-197 | Scaling keeps different band costs different and in order |
| Bandwidth.ReachableBeatsUnreachable | internal/config/config.go:458-463 | With the default threshold and reference no cost up to 1100 scales past 33990, and 33990 is reached |
| BigEndian.DecodeEncode | internal/probe/protocol.go:76-80 | Reading back what was written gives the number |
| BigEndian.EncodeDecode | internal/probe/protocol.go:107-116 | Writing back what was read gives the bytes |
| BigEndian.EncodeAt | internal/probe/protocol.go:76-80 | Byte i is the number divided by 256 to the power of the bytes after it, modulo 256 |
| BigEndian.Put | internal/probe/protocol.go:76-80 | Writes the bytes of a number at an offset and nothing else |
| ProbeProtocol.Marshal | internal/probe/protocol.go:72-97 | The buffer is the wire format, an error exactly for unknown types |
| ProbeProtocol.WireLayout | internal/probe/protocol.go:72-97 | Magic 4D 43 54 50, version, type, sequence and timestamps at their offsets, high byte first, zeros behind, 32 or 48 bytes |
| ProbeProtocol.Unmarshal | internal/probe/protocol.go:101-128 | Computes Parse, whose relation to the wire format RoundTrip and Remarshal state |
| ProbeProtocol.AcceptedIff | internal/probe/protocol.go:101-128 | Exactly which bytes are accepted, and what is complained about first in others |
| ProbeProtocol.RoundTrip | internal/probe/protocol.go:72-128 | A packet survives the wire, trailing bytes or not, exactly under the stated condition |
| ProbeProtocol.Remarshal | internal/probe/protocol.go:72-128 | Marshalling what was accepted gives the bytes back with zero padding |
| ProbeProtocol.RttIsForwardPlusReturn | internal/probe/protocol.go:141-155 | RTT = forward + return, in wrapping arithmetic always, in integers barring overflow |
| ProbeProtocol.MeasuresPath | internal/probe/protocol.go:141-155 | Over a path of known delays and a clock that is ahead: delays, round trip without the work, offset |
| ProbeProtocol.ClockShift | internal/probe/protocol.go:141-155 | Shifting the responder's clock leaves RTT alone and moves forward and return by the shift |
| ProbeProtocol.InvalidIffNegativeIff | internal/probe/protocol.go:137-153 | Invalid means a negative forward delay exactly if the forward delay is not zero |
| ProbeProtocol.OffsetFollowsShiftIff | internal/probe/protocol.go:145 | The offset moves by the shift exactly under the stated parity or sign condition |
| ProbeProtocol.OffsetMissesShift | internal/probe/protocol.go:145 | Inputs whose offset stays while the clock shifts by 1 |
| ProbeRound.Targets | internal/agent/agent.go:296-305 | Exactly the peers without a static cost are probed |
| ProbeRound.RecordRound | internal/agent/agent.go:311-331 | The loop is a run of the results' events; anyChanged exactly if one of them raised |
| ProbeRound.ResultRecorded | internal/agent/agent.go:312-331 | A valid result clears the failures and averages in its forward delay and its round trip; another is one more failure and no sample |
| ProbeRound.PeerInRound | internal/agent/agent.go:312-331 | What a round does to a peer depends on that peer's event alone |
| ProbeRound.RaisesInRound | internal/agent/agent.go:311-331 | A round reports a change exactly if some event would by itself |
| ProbeRound.RoundConfluent | internal/agent/agent.go:311-331 | Two orders of the same events give the same state and report |
| ProbeRound.ArrivalOrderIrrelevant | internal/probe/client.go:33-59 | Any permutation of a round's results gives the same state and report |
| Text.JoinSplit | internal/agent/agent.go:528-564 | Joining the lines of a text gives the text |
| Text.SplitJoin | internal/agent/agent.go:528-564 | Splitting joined lines gives the lines |
| Text.TrimSpaceIs | internal/agent/agent.go:534 | Trimming leaves the middle, with nothing but space around it |
| Text.IndentIs | internal/agent/agent.go:550 | The indent is all the blanks and tabs a line starts with |
| Text.DecimalReads | internal/agent/agent.go:551 | The digits read as the number, with no leading zero |
| Text.SignedDecimalReads | internal/generate/templates/bird_meshctl.conf.tmpl:27-28 | The same of signed numbers |
| BirdRewriter.ReplaceBIRDCosts | internal/agent/agent.go:528-564 | The scanner computes the edit that the laws below are about |
| BirdRewriter.ScanLine | internal/agent/agent.go:533-560 | The loop body: the block after a line, and the line edited |
| BirdRewriter.RewriteAt | internal/agent/agent.go:533-560 | Line count and every line but mapped cost lines are kept |
| RewriteMeaning.BlockIsRemembered | internal/agent/agent.go:537-558 | The scanner's memory at a line is the block opened before it and not closed since, if there is one |
| RewriteMeaning.EditMeans | internal/agent/agent.go:528-564 | On any text exactly the cost lines in blocks of mapped interfaces change, to the new cost at the old indentation |
| BirdRewriter.EditKeepsReading | internal/agent/agent.go:533-560 | An edited line opens, closes and is edited again as the original would be |
| BirdRewriter.ReplaceTwice | internal/agent/agent.go:528-564 | Two edits are one with the merged map; the number of lines stays |
| BirdRewriter.ReplaceLaws | internal/agent/agent.go:528-564 | The edit is idempotent, and a later map over at least the same interfaces wins |
| BirdRewriter.ReplaceNothing | internal/agent/agent.go:528-564 | The empty map edits nothing |
| BirdTemplate.BlockIsEdited | internal/generate/templates/bird_meshctl.conf.tmpl:24-30 | Editing an interface block replaces its cost and leaves it closed |
| BirdTemplate.LinesAreEdited | internal/generate/templates/bird_meshctl.conf.tmpl:1-81 | Editing the printed lines prints the lines of the new costs |
| BirdTemplate.EditIsRerender | internal/generate/templates/bird_meshctl.conf.tmpl:1-81 | Character for character, the edited text is the text rendered with the new costs; SiteFiles says what a rendered text is |
| BirdTemplate.RecostedCosts | internal/agent/agent.go:549-553 | The new cost of a peer is the map's for its interface, else its old one |
| BirdTemplate.RenderShowsCosts | internal/generate/templates/bird_meshctl.conf.tmpl:11-81 | Two renderings are equal exactly if every printed peer has the same cost in both |
| BirdTemplate.BuildData | internal/generate/bird.go:170-236 | Links split by mode in order; for each peer its last entry's interface and initial cost |
| BirdLayout.StubIsRead | internal/generate/templates/bird_meshctl.conf.tmpl:1-9 | The stub advertises the loopback from the IPv4 table |
| BirdLayout.Fe80IsRead | internal/generate/templates/bird_meshctl.conf.tmpl:11-34 | OSPFv3 for IPv4 is there exactly if there are fe80 links, with these on the IPv4 table |
| BirdLayout.V6IsRead | internal/generate/templates/bird_meshctl.conf.tmpl:36-59 | OSPFv3 for IPv6 is there exactly if there are links, with all of them on the IPv6 table |
| BirdLayout.V4LLIsRead | internal/generate/templates/bird_meshctl.conf.tmpl:61-81 | OSPFv2 is there exactly if there are other links, with these on the IPv4 table |
| BirdLayout.BodyText | internal/generate/templates/bird_meshctl.conf.tmpl:23-33 | The area and the six lines of each interface: name, type, hello, dead, cost, end |
| SiteFiles.Fe80Prints | internal/generate/templates/bird_meshctl.conf.tmpl:11-34 | Read back, OSPFv3 for IPv4 is there exactly if node and some peer run Linux, with the interfaces toward exactly these peers, in order |
| SiteFiles.V4LLPrints | internal/generate/templates/bird_meshctl.conf.tmpl:61-81 | OSPFv2 is there exactly if there is another peer, with the interfaces toward exactly the others, in order |
| SiteFiles.V6Prints | internal/generate/templates/bird_meshctl.conf.tmpl:36-59 | OSPFv3 for IPv6 is there exactly if there is a peer, with the interfaces toward all, in order |
| SiteFiles.InitialCosts | internal/generate/bird.go:182-196 | A peer's first cost is its static cost, whatever its mode, else 100 |
| Allocator.NextFree | internal/config/config.go:635-637 | The smallest free integer from a point on |
| Allocator.NthFreeAscends | internal/config/config.go:633-642 | Allocations are free, at or above the base, and strictly increasing |
| Allocator.NthFreeIsDense | internal/config/config.go:633-642 | No free integer is passed over |
| Allocator.FitsInto | internal/generate/generator.go:76-88 | With as many slots as newcomers and used ones together everything fits |
| Inventory.Config.ValidateNodes | internal/config/config.go:510-645 | Succeeds exactly on valid inventories, then with all ids assigned; else the first complaint and nothing changed |
| Inventory.Config.CheckNodes | internal/config/config.go:516-606 | The running checks find exactly the nodes that complain, the first one first |
| Inventory.ComplaintIsTrue | internal/config/config.go:516-606 | Each complaint says what is the matter with its node |
| Inventory.NameRule | internal/config/config.go:732-748 | A name is 1 to 63 of these characters, a letter first |
| Inventory.Config.CheckIds | internal/config/config.go:611-622 | Negative and repeated ids are found, else the used ids collected |
| Inventory.Config.AssignIds | internal/config/config.go:624-642 | The in-place loop gives every node the id that IdOf defines |
| Inventory.Config.SortedUnassigned | internal/config/config.go:625-632 | The names without an id, ascending and each once |
| Inventory.SkipUsed | internal/config/config.go:635-637 | The inner loop ends at the smallest free id |
| Inventory.UncomplainingIsValid | internal/config/config.go:510-622 | The order-dependent checks together amount to an order-free validity |
| Inventory.IdsAreDistinct | internal/config/config.go:608-642 | Ids are positive and pairwise distinct; assigned ones never exceed the node count |
| Inventory.AutoIdsFollowNames | internal/config/config.go:624-642 | Assigned ids increase with the name |
| Ordering.LessIsLexicographic | internal/config/config.go:630-632 | Names are ordered by the first character that differs, a prefix before its continuations |
| Inventory.AutoIdsAreDense | internal/config/config.go:633-642 | Every positive integer below an assigned id is some node's id |
| Inventory.AssignedIsValid | internal/config/config.go:510-645 | An inventory with its ids assigned is valid again |
| Inventory.ValidityIgnoresOrder | internal/config/config.go:510-622 | A permutation of a valid inventory is valid |
| Inventory.IdsIgnoreOrder | internal/config/config.go:608-642 | The id of a node does not depend on the order of the list |
| Inventory.AssignedIgnoresOrder | internal/config/config.go:608-642 | Two orders of one inventory end with the same nodes |
| Mesh.NodeIsFound | internal/config/config.go:719-726 | On a valid inventory looking up a node's name finds it |
| Mesh.Constrain | internal/mesh/links.go:63-74 | The constraint map decides peerAllowed as both peers_with lists together do |
| Mesh.EnumeratePairs | internal/mesh/links.go:59-101 | Exactly the permitted pairs in full mode, strictly ascending; none in other modes |
| Mesh.EnumerationUnique | internal/mesh/links.go:59-101 | There is only one enumeration, whatever the order of the nodes |
| Mesh.ComputeLinks | internal/mesh/links.go:38-55 | One link for each pair with its mode, or the first pair nobody can dial |
| Mesh.ModeIsFe80Iff | internal/mesh/links.go:119-124 | A link of the mesh is fe80 exactly if both ends run Linux |
| Mesh.AddressesDistinct | internal/mesh/addressing.go:53-62 | Ids within 32 bits give equal addresses exactly if they are equal |
| Mesh.AddressLastByte | internal/mesh/addressing.go:53-62 | Without a carry only the last byte is raised, by the id |
| Mesh.AddressExamples | internal/mesh/addressing.go:53-62 | Node 2 of 169.254.0.0 is 169.254.0.2, node 300 is 169.254.1.44 |
| Mesh.AssignAddresses | internal/mesh/addressing.go:22-50 | In place every link gets its ends' addresses; at an unknown node those before it have theirs and the rest is untouched |
| Mesh.BuildMesh | internal/mesh/addressing.go:22-50 | Both steps together fail exactly on a bad range or an undiallable permitted pair |
| Mesh.MeshIgnoresOrder | internal/mesh/links.go:38-101 | The link sequence with modes and addresses does not depend on the order of the nodes |
| Mesh.MeshOfBoth | internal/mesh/links.go:38-101 | The mesh of one order is the mesh of the other |
| Mesh.BuildableIgnoresOrder | internal/mesh/links.go:38-55 | Building succeeds for one order exactly if it does for the other |
| Mesh.PeersAreOfLinks | internal/mesh/links.go:135-151 | LinksForNode keeps exactly the node's links, in order |
| Mesh.PeersAscend | internal/mesh/links.go:135-151 | A node's peers come once each in increasing order, and are the permitted ones |
| Mesh.LinkedIff | internal/mesh/links.go:59-116 | Two nodes are linked exactly if they differ and neither restricts its peers to others |
| Mesh.DegreesAddUp | internal/mesh/links.go:135-143 | Over all names the degrees add up to twice the links |
| Mesh.MeshDegrees | internal/mesh/links.go:135-143 | The same for the nodes and links of an inventory |
| Generator.PeerPort | internal/generate/generator.go:52-89 | The port is the peer's fixed one, or the free one of its rank from the base |
| Generator.SplitPeers | internal/generate/generator.go:64-75 | The fixed ports in use and the other peers in order |
| Generator.PortAmong | internal/generate/generator.go:76-88 | The nested loops hand out the k-th free port to the peer of rank k |
| Generator.SkipFixed | internal/generate/generator.go:79-81 | The inner loop ends at the smallest port that is not fixed |
| Generator.PortsInjective | internal/generate/generator.go:52-89 | No two peers of a node share a listen port |
| Generator.PortRange | internal/generate/generator.go:52-89 | Auto ports lie in [base, base + degree) |
| Generator.PortsAreDense | internal/generate/generator.go:76-88 | No port from the base up to an auto port is skipped |
| Generator.NewPeerMovesOnlyLater | internal/generate/generator.go:52-89 | A new auto peer moves only the ports of later auto peers |
| Generator.PortsIgnoreOrder | internal/generate/generator.go:52-89 | Ports do not depend on the order of the nodes |
| Generator.EntriesIgnoreOrder | internal/generate/generator.go:139-197 | A node's entries do not depend on the order of the nodes |
| Generator.GenerationIgnoresOrder | internal/config/config.go:608-642 | Nodes with ids, whether a mesh can be built, the mesh, all ports and all entries are the same for every order of the inventory |
| Generator.DialsThePort | internal/config/config.go:298-323 | A node can be dialled exactly if it has an endpoint, and on the port asked for |
| Generator.BuildWGPeers | internal/generate/generator.go:139-197 | One entry for each link to an existing node, in link order, with the ports of both ends |
| NodeEntries.EntrySides | internal/generate/generator.go:139-197 | Key, type, cost mode and static cost are the peer's; local address and id the node's own, peer address and id the peer's; mode by both types |
| NodeEntries.EntryPort | internal/generate/generator.go:153-155 | The listen port is the peer's fixed one, or lies within the degree from the node's own base |
| NodeEntries.BaseIsOwn | internal/config/config.go:363-368 | The base is the node's own listen port if it has one, else the global one |
| NodeEntries.EntryPortsDiffer | internal/generate/generator.go:139-197 | No two entries of a node listen on one port, and automatic ports follow the names |
| NodeEntries.EndpointIsRemote | internal/config/config.go:298-318 | What is dialled is the remote's address, a family both have first, IPv6 before IPv4 |
| NodeEntries.EntryDials | internal/generate/generator.go:153-173 | An entry dials its peer's address on the port that peer listens on for this node |
| NodeEntries.IfaceIs | internal/generate/bird.go:241-248 | An override wins over the derived name |
| NodeEntries.PenaltyOfWorseEnd | internal/generate/generator.go:158-164 | A link has the larger penalty of its ends, none for a bandwidth not given |
| NodeEntries.EntryPenalty | internal/generate/generator.go:158-164 | An entry carries that penalty |
| Generator.BuildInterfaceName | internal/generate/bird.go:255-274 | The byte loop computes the name that InterfaceNameFits is about |
| Generator.ToLowerIs | internal/generate/bird.go:256 | Upper-case letters become their lower-case ones, all else stays |
| Generator.StrippedInOrder | internal/generate/bird.go:262-268 | What is alphanumeric is kept in order |
| Generator.InterfaceNameFits | internal/generate/bird.go:255-274 | At most 15 characters, the prefix first, then all of the peer's name or the start of its alphanumerics |
| Generator.CheckInterfaceNameCollisions | internal/generate/generator.go:93-109 | Passes exactly if no node derives one interface for two peers |
| Generator.MirroredEnds | internal/generate/generator.go:139-197 | The two ends of a link have one entry each for the other, ports, addresses, mode and penalty agree, one can dial |
| AgentCosts.SyncPeer | internal/agent/agent.go:229-245 | One peer's settings are a run of engine events |
| AgentCosts.SyncPeers | internal/agent/agent.go:206-246 | All peers' settings are a run of engine events; known interfaces are overwritten, never cleared |
| AgentCosts.SyncCosts | internal/agent/agent.go:206-273 | A sync is those settings and then one reload with the defaults filled in |
| AgentCosts.SyncSets | internal/agent/agent.go:206-273 | A named peer gets its static cost, or the same as fallback, and its penalty; others keep theirs; the parameters come into force with defaults for zeros |
| SiteFiles.DeployedSettings | internal/agent/agent.go:206-246 | From the inventory on: static cost or fallback by the peer's mode, and the penalty of the worse end |
| AgentCosts.SyncKeepsBands | internal/agent/agent.go:248-273 | A sync never reloads to no bands |
| AgentCosts.BuildCostMap | internal/agent/agent.go:484-488 | The map holds for every known interface the current cost of a peer that has it |
| AgentCosts.ApplyDynamicCosts | internal/agent/agent.go:476-512 | What is written is the edited text, nothing when it is unchanged or no interface is known |
| AgentCosts.CheckedNamesAreUnshared | internal/generate/generator.go:93-109 | The collision check is what keeps a node's interfaces unshared |
| AgentCosts.TextShowsCurrentCosts | internal/agent/agent.go:476-564 | Where the agent knows the file's interfaces and none is shared, the edited text is the template rendered with the engine's current costs |
| AgentCosts.TextShowsCurrentCostsIff | internal/agent/agent.go:484-564 | In whatever order peers come, the text shows the current costs exactly if peers claiming a printed interface do not differ in cost |
| AgentCosts.LatestCostsWin | internal/agent/agent.go:476-564 | After any earlier edit, syncs in between included, a later one leaves what it alone would have left, if no printed interface was forgotten |
| AgentCosts.LaterEditWinsIff | internal/agent/agent.go:528-564 | For two maps that is so exactly if each printed interface is in the later one or had kept its cost |
| AgentCosts.SyncKeepsIfaces | internal/agent/agent.go:223-225 | A sync forgets no interface unless it moves a peer to another one |
| AgentRounds.DoProbeRound | internal/agent/agent.go:295-337 | A round is a run of its results' events; the file is edited exactly if one of them reports and it can be read and written |
| AgentRounds.ReportedRoundIsCurrent | internal/agent/agent.go:311-337 | After a reporting round the file shows the engine's current costs, whatever costs it showed |
| AgentRounds.SilentRoundIsCurrentIff | internal/agent/agent.go:311-337 | After a silent round it does exactly if no printed peer's cost changed |
| AgentRounds.RoundKeepsFileCurrent | internal/agent/agent.go:295-337 | A current file stays current in every round if no printed target is down at a price of its own |
| AgentRounds.SteadyRoundLeavesFileBehind | internal/agent/agent.go:295-337 | Otherwise, with the targets settled, there is a silent round that leaves the file behind |
| AgentRounds.RoundKeepsFileCurrentIff | internal/agent/agent.go:295-337 | For settled targets the two halves together: an exact condition over all rounds |
| AgentHistory.DoConfigSync | internal/agent/apply.go:644-671 | A sync leaves the generated file, whether it was edited or not, and tells the engine its settings |
| AgentHistory.SyncIsCurrentIff | internal/agent/apply.go:656-662 | After a sync the file is current exactly if every printed peer costs what was generated for it |
| AgentHistory.SilentSinceSync | internal/agent/agent.go:311-337 | Until a round reports the file is the generated one |
| AgentHistory.CurrentAfterReport | internal/agent/agent.go:311-337 | With the report it becomes current, whatever happened since the sync |
| AgentHistory.FileOverHistory | internal/agent/agent.go:140-189 | At any time the file is that of the last sync with the costs as of the last report since |
| AgentHistory.FileIsCurrentIff | internal/agent/agent.go:140-189 | It is current exactly if every printed peer costs what it did at that report or generation |
| AgentHistory.SyncForgetsCosts | internal/agent/apply.go:656-662 | A sync that changes no configuration takes a cost in the file from 20 to 100 |
| AgentHistory.StaleIfaceSpoils | internal/agent/agent.go:223-225 | Two syncs after which a dropped peer still claims the interface of another that differs in cost |
| Deployment.IfaceHasName | internal/generate/bird.go:241-274 | The interface of a validated peer is never empty |
| Deployment.SyncedIfaces | internal/agent/agent.go:206-225 | After a sync the agent has every interface it was given, and of other peers what it had |
| Deployment.EntriesOfMesh | internal/generate/generator.go:139-197 | A node's entries are its peers in order, each on the interface named for it |
| Deployment.DeployedKnows | internal/generate/bird.go:148-153 | Generated and synced, the agent knows the interface of every printed peer |
| Deployment.DeployedUnshared | internal/generate/generator.go:93-109 | After the collision check no printed peer's interface is shared, stale ones apart |
| Deployment.GeneratedTextShowsCurrentCosts | internal/agent/agent.go:476-564 | From the validated inventory on: the edited file is the file rendered with the engine's current costs |

## Left out

- CostBands.Ewma: computes with an exact fraction alpha and truncates toward zero; the rounding of float64 is not modelled.  The band results hold for every smoothing that stays between old value and sample.
- CostBands.SmoothBetween: is about the exact fraction, as Ewma is.
- CostBands.SmoothingAverages: is about the exact fraction, and needs alpha in [0,1], which the code does not validate.
- CostBands.RestsAt: is about the exact fraction; where float64 rounding would stop is not modelled.
- CostTracks.SettledDelay: is about the exact fraction, likewise.
- CostTracks.FallLands: is about the exact fraction, likewise; CostTracks.FallSettles is not.
- CostRuns.ReloadIsNoOp: needs bands in the configuration in force now; without them the claim is false (CostRuns.ReloadWithoutBandsMoves), and CostRuns.ReloadIsNoOpIff says exactly when it holds.
- CostRuns.OutageReportedOnce: is the case of reloads that keep the limit; CostRuns.OutageReportedOnceIff is exact for all reloads.
- CostRuns.DelayWithinSamples: durations and counters are unbounded integers; a round trip or average beyond 64 bits is not modelled in the engine.
- CostEngine.Engine.RecordSuccess: every engine call is atomic; the engine has no lock and its callers' interleavings inside a call are not modelled.
- CostEngine.Engine.UpdateConfig: takes the bands as a value; a caller that later writes into the slice it passed is not modelled.
- Inventory.Config.ValidateNodes: address fields carry the outcome of parsing instead of the parser.
- Inventory.Config.AssignIds: sorts the names of the unassigned nodes and looks up their indices, where the code sorts the indices by name.
- Mesh.AssignAddresses: the range is its parsed IPv4 base or nothing; an IPv6 base, on which the library call panics, is not modelled.
- Mesh.EnumeratePairs: needs a validated inventory, as loading guarantees.
- Generator.PeerPort: needs a known node and a link list that names each peer of a node once, as ComputeLinks yields.
- Generator.BuildWGPeers: needs the same; fe80 addresses are the ids they are made from, and endpoints are structured values rather than text.
- Generator.InterfaceNameFits: counts characters and lower-cases ASCII; validated node names hold nothing else.
- BirdTemplate.BuildData: the underlay routes and the list of peers, which this template does not print, are not part of the data.
- BirdTemplate.EditIsRerender: needs fields without newlines; the wording of comment lines is a parameter of the data.
- AgentCosts.TextShowsCurrentCosts: is the case of unshared interfaces; AgentCosts.TextShowsCurrentCostsIff is exact.
- Deployment.DeployedUnshared: needs that no peer the agent knew from an earlier configuration still claims one of the interfaces, since the agent clears none.
- Deployment.GeneratedTextShowsCurrentCosts: the JSON file in between is read as the peers written to it.
- AgentRounds.DoProbeRound: the results of probing are a parameter, one for each target; a failing read or write of the file is a parameter, too.
- Bandwidth.CalcBandwidthPenalty: needs a non-zero threshold when the bandwidth is below it, where the code panics on the division.
- AgentHistory.DoConfigSync: of a sync that fetches and applies both files; failed ones, and a configuration without a BIRD file, leave everything or the file as it was and are not modelled.
- Goroutine scheduling of a probe round: only as an arbitrary order of the results; sockets, timeouts and ICMP are not modelled.
- Library sorting, splitting, trimming and decimal printing: functions with their own proofs here, not the library's code; text is a sequence of characters without UTF-8.
- Checks of peer references and interface overrides, Snapshot and State: easy members about single fields.
- Writing files and reloading BIRD, fetching configuration, the reconciler, preshared keys, RouterOS and static snippets, NTP parsing, health endpoint, command line: I/O or foreign calls.
