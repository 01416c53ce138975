# MinusPod: what is cut, and what must not be

MinusPod decides which seconds of a podcast episode are removed. Detectors, a language model and people propose spans;
the code clamps, holds, splits, merges and routes them until a list of cuts is left, and a render loop lays out the
rest. This project models that logic and proves what holds for every input: every model reply, every correction
history, every manifest, every completion order of the worker threads.

Seconds are exact reals and spans are half-open. Model replies, transcript units, audio measurements and fetched files
are arbitrary inputs. Where the source updates things in place the model does too: loops are methods proved against a
function, and the marker list and the pattern table are classes whose methods are proved against functions of their old
state. The lemmas then say what those functions guarantee.

## Parts

| files | what they model |
|---|---|
| `Popcount`, `FingerprintScan`, `FingerprintMatches` | the batched episode scan, refined to the walk that compares every pattern at every position, and what that walk finds and merges |
| `WindowHits`, `SharedRuns`, `SharedSegments`, `SharedExtent` | greedy hit selection, growing and refining runs shared between episodes, and how far they reach |
| `Spans`, `AppliedCuts`, `AppliedCutsProofs`, `AppliedTrust`, `AppliedGroups`, `RenderPlan`, `RenderTimeline` | span subtraction and union, the applied cuts told from the requested pieces, which short cuts are trusted, and the parts the render loop lays out |
| `EdgeIndex`, `EdgeHolds`, `ReviewerClamp`, `ClampEffects` | the bisect index over speech, the no-cross holds, the whole clamp of a reviewer's proposal, and what each piece of evidence does to it |
| `ReviewVerdicts`, `ReviewMarkers`, `ReviewRouting`, `ReviewLists` | from a model reply to the marker an ad carries and the list it ends in, with concurrent batches and the failure rule |
| `KeepRanges`, `RestoreConfirmed`, `RestoreConfirmedProofs`, `RestoreExactly`, `MarkerSplits`, `MarkerSplitRules`, `MergeCloseAds`, `MergeChains` | the validator's span algebra |
| `AdChapters`, `AdChapterLaws` | rebuilding chapters from markers, and where in the served audio they fall |
| `CommunitySync`, `CommunitySyncProofs`, `CommunitySyncRows`, `CommunitySyncRerun`, `CommunityOutcomes`, `PatternTable` | reconciling the pattern table with a manifest, over any number of runs |
| `Basics` | options, minima and maxima, and a stable sort |

## What turned out false

Each of these is a promise of the code's comments, or a natural expectation, that fails for some inputs. A lemma gives
the input, and where there is an exact condition it is proved in both directions.

- The batch is not "bit-identical" to the scalar comparison at a position whose end index is 0, where the scalar reads
  to the end of the episode. It is exactly where the end index is not 0 or nothing agrees anyway
  (`BatchIsScalarExactly`); one integer over twenty seconds is a scan where the two differ (`EmptyRowDiffersFromScalar`).
  The scan never uses such a row, so its matches are still exactly the simple walk's.
- A shared run can be longer than `max_len`: exactly when the probe window is (`LengthCapHoldsExactly`,
  `RunOverTheCap`). Every caller passes `max_len >= min_len >= win`, so the program itself keeps every run between its
  bounds (`CallersKeepTheBounds`).
- A stretch of `min_len` integers that enough siblings share can be missed: the probe grid may step over it
  (`ShortStretchIsMissed`). None of at least `min_len` plus two steps less two is, when the step is shorter than the
  window, as the callers' half-window is (`LongStretchesAreMet`).
- Merged cuts are in order and disjoint exactly when no beep piece overlaps a remove piece (`MergedInOrderExactly`); a
  beep over the second half of a cut is an input where they are not (`MixedKindsOverlap`).
- A user-confirmed cut under ten seconds can be dropped, when an unconfirmed neighbour ends its merged span
  (`ConfirmedCutCanBeDropped`). It cannot as long as no unconfirmed piece of its kind starts by a confirmed piece's end
  and ends no earlier (`ConfirmedPiecesAreApplied`). A second is applied exactly when its merged span is long or trusted
  at the end, or the tail runs over it (`AppliedExactly`).
- The merge does not "carry the strongest trust signal" of every kind: confidence, the fingerprint stage and the measured
  split are carried (`MergedTakesIn`), the cue-match stage is not. A cue match under ten seconds is dropped where it joins
  a span an ordinary detection opened (`CueMatchCanBeDropped`), and applied in full when every other piece of its kind
  that starts no later ends at least a second before it (`CueMatchesAreApplied`).
- Inward holds do not depend on the order of their limits, and holding twice is holding once, exactly when every barrier
  without length is backed by another (`OrderMattersExactly`, `EndOrderMattersExactly`): when it lies in, or on the edge
  of, a barrier with length (`BackedMeansTouching`). One empty barrier alone breaks both (`EmptyBarrierBreaksOrder`).
  Pass 2 builds its barriers with `merge_cut_spans`, which drops spans without length, so its holds meet the condition
  (`PositiveIsBacked`).
- A piece of a split hold starts after its release exactly when that release began before the hold
  (`PieceStartsByRelease`, `PieceCanStartLate`).
- The reviewer's lock on the end of a marker that was folded into another is lost (`LaterEndLockIsLost`): a merged
  marker that may still grow refuses everything past its end exactly while the first member's lock covers that end
  (`FirstLockRefusesExactly`), and a gap is bridged only past that lock (`BridgedGapsLiePastTheLock`).
- A chapter rebuild remembers an earlier one exactly when it writes nothing over topics the earlier one had to sort
  (`RebuildForgetsHistory`, `HistoryCanShow`).
- A batch's outcome depends on the completion order when some reviews hit the rate limit and others fail otherwise
  (`AnyFailureCanSurface`), and in no other case (`OrderMattersExactly` of `ReviewRouting`).
- Re-applying a manifest never inserts or deletes, but can update: exactly when some entry would update the row that its
  id's own entries make of the row before (`RerunUpdatesExactly`). With distinct ids that is an inline entry carrying, at
  a higher version, the hash its row already has (`RerunIsQuiet`, `SameHashKeepsUpdating`); with repeated ids, two thin
  entries with different hashes are enough (`RepeatedIdsKeepUpdating`).

## Model

| member | source | states |
|---|---|---|
| Popcount.TablePopcountIsBitCount | src/audio_fingerprinter.py:91-94 | the four byte lookups count every set bit of a 32-bit word exactly once |
| Popcount.TableErrorsAreBitErrors | src/audio_fingerprinter.py:622-627 | masking before the xor and looking bytes up gives the scalar's masked bit count, negative integers included |
| FingerprintScan.CalculateSimilarity | src/audio_fingerprinter.py:607-630 | the scalar loop returns the share of agreeing bits over the compared length, 0 when nothing is compared, with end 0 meaning the whole array |
| FingerprintScan.RowSumIsSliceErrors | src/audio_fingerprinter.py:1069-1071 | the first n entries of a gathered row are never clipped and their running sum is the scalar's error count of that slice |
| FingerprintScan.RowSimilarityIsSimilarity | src/audio_fingerprinter.py:1058-1076 | read off the running sum, a row is the scalar similarity, or 0 when its end index is 0 |
| FingerprintScan.BatchIsScalarExactly | src/audio_fingerprinter.py:1036-1077 | a batch entry is the scalar similarity if and only if its end index is not 0 or the scalar finds nothing that agrees |
| FingerprintScan.EmptyRowDiffersFromScalar | src/audio_fingerprinter.py:1038-1042 | a scan whose every batch from 0 holds 0 where the scalar finds the pattern itself |
| FingerprintScan.BatchRun | src/audio_fingerprinter.py:1036-1077 | one batch holds, for consecutive step positions, the scalar indices and every pattern's batch similarity |
| FingerprintScan.ScanBatched | src/audio_fingerprinter.py:1079-1132 | the batched scan, with its jumps and batch invalidation, returns exactly the match list of the simple walk, for every episode, pattern list and stop point |
| FingerprintScan.WalkUnfolds | src/audio_fingerprinter.py:1084-1132 | each iteration yields at most the match at its position, moves on, and consumes the measure that makes the walk end |
| FingerprintMatches.WalkMatchesFollow | src/audio_fingerprinter.py:1104-1132 | every match clears the threshold and starts no earlier than the one before it ends |
| FingerprintMatches.WalkFindsAll | src/audio_fingerprinter.py:1084-1132 | the walk finds exactly the grid instants where some pattern reaches the threshold on at least four integers, the lowest-index such pattern each time, and nothing clears at any instant it looks at in between |
| FingerprintMatches.FindsAllOnce | src/audio_fingerprinter.py:1084-1132 | that description has one solution, so it says all there is to say about the walk |
| FingerprintMatches.CopiesAreFound | src/audio_fingerprinter.py:1099-1132 | a copy of a stored pattern at an instant the scan looks at starts a match there |
| FingerprintMatches.MergeFromIsRuns | src/audio_fingerprinter.py:1323-1355 | each merged match is a maximal run of matches within the tolerance: the first one's pattern and start, the latest end, the best confidence, the first sponsor and category named |
| FingerprintMatches.MergeOverlappingMatches | src/audio_fingerprinter.py:1323-1355 | the in-place merge of neighbouring matches computes the merge function the next rows are about |
| FingerprintMatches.MergeFromHolds | src/audio_fingerprinter.py:1323-1355 | every match lies inside one merged match whose confidence is no lower |
| FingerprintMatches.MergeFromAddsLittle | src/audio_fingerprinter.py:1323-1355 | merged matches contain no time further than the tolerance past an original match |
| FingerprintMatches.FindMatchesFast | src/audio_fingerprinter.py:993-1142 | the finder returns every hit of the step grid that is not inside an earlier match, each with its pattern's id, length, labels and similarity, merged run by run |
| FingerprintMatches.FoundMatches | src/audio_fingerprinter.py:993-1142 | found matches are apart, hold every match of the walk, and reach little past them |
| WindowHits.PairErrorsOfSlices | src/audio_fingerprinter.py:177-184 | comparing slices copied into one array gives the cross-array error count, on either side |
| WindowHits.WindowSimilarity | src/audio_fingerprinter.py:103-109 | the column-by-column accumulation holds the similarity of the anchor window with every start position |
| WindowHits.GreedyHitPositions | src/audio_fingerprinter.py:117-133 | hits qualify, are unclaimed, at least min_gap apart, and every qualifying position lies within min_gap after a hit |
| WindowHits.GreedyIsLargest | src/audio_fingerprinter.py:117-133 | no other min_gap-separated set of qualifying positions is larger |
| WindowHits.GreedyHitsUnique | src/audio_fingerprinter.py:117-133 | the contract has exactly one solution |
| SharedSegments.ProbeSiblings | src/audio_fingerprinter.py:225-232 | each sibling's best offset for the probe window, kept exactly when it clears the threshold |
| SharedSegments.SliceOk | src/audio_fingerprinter.py:211-219 | the members that still agree on a slice; every call's slice lies inside the target, as its requires demand |
| SharedSegments.GrowCoarse | src/audio_fingerprinter.py:236-249 | growing back then forward by slices |
| SharedSegments.RefineEnd | src/audio_fingerprinter.py:260-272 | retracting then extending the end one index at a time |
| SharedSegments.RefineStart | src/audio_fingerprinter.py:273-285 | retracting then extending the start one index at a time, never before the last emitted run |
| SharedSegments.ScanRuns | src/audio_fingerprinter.py:221-304 | the nested scan loops terminate and return the runs of the recursive scan |
| SharedRuns.ScanFindsSharedRuns | src/audio_fingerprinter.py:221-304 | every run lies in the target, is long enough, follows the earlier runs without overlap, and at least min_matches siblings agree, at one fixed alignment each, on windows of win, step or min(4, win) integers that contain every index of it |
| SharedExtent.CoarseRunIs | src/audio_fingerprinter.py:234-249 | a coarse run ends on either side only where one more step leaves the target, enters claimed audio, passes max_len, or keeps fewer than min_matches of the siblings that agreed so far |
| SharedExtent.RefineIs | src/audio_fingerprinter.py:251-285 | each refined edge retracts past the fine windows that fail and no further, and then extends until the next one fails or a bound is met |
| SharedExtent.RunsAreFull | src/audio_fingerprinter.py:221-304 | every run found starts from a probe of the grid that enough siblings match and reaches its full coarse and refined extent |
| SharedExtent.LongStretchesAreMet | src/audio_fingerprinter.py:221-304 | a stretch that min_matches siblings share at their best offsets, two steps less two integers longer than min_len, is met by a found run or what it claims |
| SharedExtent.ShortStretchIsMissed | src/audio_fingerprinter.py:221-232 | an input whose shared stretch of exactly min_len no probe falls in, so that nothing is found |
| SharedRuns.LengthCapHoldsExactly | src/audio_fingerprinter.py:236-272 | a run respects max_len if and only if the probe window fits in it |
| SharedRuns.RunOverTheCap | src/audio_fingerprinter.py:236-272 | a scan that emits a run over max_len |
| SharedRuns.CallersKeepTheBounds | src/audio_fingerprinter.py:874-880 | with the bounds the callers compute, every run is between min_len and max_len |
| SharedRuns.NothingFoundExactly | src/audio_fingerprinter.py:221-304 | nothing is found if and only if every probe of the grid has too few matching siblings or grows into a run under min_len |
| SharedRuns.NothingFoundMeansNoProbeMatches | src/audio_fingerprinter.py:221-304 | the same by index: on an empty result the k-th probe of the grid was fruitless, for every k |
| SharedSegments.FindSharedSegments | src/audio_fingerprinter.py:187-304 | short siblings are ignored, and too few siblings or too short a target give no runs |
| Spans.SubtractCovers | src/utils/markers.py:829-835 | subtraction is set difference on time for cuts of any shape |
| Spans.SubtractShape | src/utils/markers.py:829-835 | pieces left are non-empty and each inside an original piece |
| Spans.SubtractInOrder | src/utils/markers.py:829-835 | ordered pieces stay ordered and disjoint |
| Spans.SubtractEdges | src/utils/markers.py:829-835 | each edge left is an edge of a piece or of a cut |
| Spans.MergeRunsCovers | src/utils/markers.py:817-826 | merging runs is union on time |
| Spans.MergeRunsApart | src/utils/markers.py:817-826 | runs come out left to right with time between them |
| AppliedCuts.ComputeAppliedCuts | src/audio_processor.py:269-428 | the clamp, merge, filter and extension loops compute the applied cuts the lemmas below are about |
| AppliedCuts.MergeSegments | src/audio_processor.py:326-373 | the loop that grows the open cut in place |
| AppliedCuts.ClampIsExact | src/audio_processor.py:295-313 | clamping asks for exactly the requested seconds inside the file and outside kept audio |
| AppliedCutsProofs.AppliedSeconds | src/audio_processor.py:295-428 | every applied second was requested, fills a barrier-free unlocked gap under 1 s, or is in a tail under 30 s with no barrier in it, after an end nobody confirmed or pinned |
| AppliedCutsProofs.AppliedAvoidsKeptAudio | src/audio_processor.py:295-428 | no applied cut touches a hard barrier |
| AppliedCutsProofs.AppliedInRange | src/audio_processor.py:295-428 | cuts lie in the file, and their total is at most the requested total plus 1 s per piece plus 30 s |
| AppliedCutsProofs.MergedInOrderExactly | src/audio_processor.py:326-373 | merged cuts are in order and disjoint if and only if beep and remove pieces do not overlap |
| AppliedCutsProofs.AppliedInOrder | src/audio_processor.py:295-428 | beep and remove requests that do not overlap give ordered, disjoint applied cuts |
| AppliedCutsProofs.MixedKindsOverlap | src/audio_processor.py:326-373 | an input, a beep over part of a cut, whose merged cuts overlap |
| AppliedCutsProofs.MergedTakesIn | src/audio_processor.py:326-373 | each piece ends up whole inside one merged cut of its kind that carries its confidence, fingerprint stage and measured split |
| AppliedCutsProofs.RequestedSecondsAreApplied | src/audio_processor.py:295-428 | a requested second outside kept audio is applied, unless it sits in a dropped untrusted merged span under 10 s |
| AppliedCutsProofs.AppliedExactly | src/audio_processor.py:375-422 | a second is applied if and only if its merged span is kept by the short-cut filter, or it lies after the last kept span, under 30 s from the end with no barrier between, and that span's end is neither confirmed nor precise |
| AppliedGroups.MergedIsGroups | src/audio_processor.py:315-373 | the merged cuts are the longest chains of pieces by start, where a piece continues a chain of its kind under 1 s behind its latest end, with no barrier between and, over a gap, no confirmed or pinned edge; each cut's end, trust and pins are told from its chain |
| AppliedGroups.AppliedIsByGroups | src/audio_processor.py:295-422 | on the requested pieces alone: a second is applied if and only if it lies in a chain of at least 10 s or with one of the four trust signals, or in the barrier-free remainder under 30 s after the last such chain, whose end no person, quote, word or lock fixed |
| AppliedGroups.FixedEndStands | src/audio_processor.py:407-422 | after a last chain whose end is fixed nothing more is applied |
| AppliedTrust.TrustedPiecesAreApplied | src/audio_processor.py:375-403 | a fingerprint match, a confident ad or a measured split is applied in full, however short |
| AppliedTrust.ConfirmedPiecesAreApplied | src/audio_processor.py:331-391 | confirmed pieces are applied in full as long as no unconfirmed piece of their kind starts by a confirmed end and ends no earlier |
| AppliedTrust.ConfirmedCutCanBeDropped | src/audio_processor.py:344-401 | an input where a short user-confirmed cut is dropped, though alone it is applied |
| AppliedTrust.CueMatchesAreApplied | src/audio_processor.py:344-391 | a cue-match piece is applied in full, however short, when every other piece of its kind that starts no later ends at least 1 s before it starts |
| AppliedTrust.CueMatchCanBeDropped | src/audio_processor.py:351-391 | an input where a short cue-match cut is dropped, though alone it is applied |
| RenderPlan.BuildParts | src/audio_processor.py:544-607 | the filter loop lays out the parts, and fails exactly when there are none |
| RenderPlan.PartsHaveExpectedLength | src/audio_processor.py:530-602 | for ordered disjoint cuts the parts' total length is the closed-form duration |
| RenderTimeline.FillersSitAtCuts | src/audio_processor.py:544-593 | in the output each cut with a filler has it where the cut was, after the content and fillers before it, a beep as long as its span |
| RenderTimeline.FillersAreCounted | src/audio_processor.py:542-593 | the output has one filler per beep, and one per removal while the sound is on, and no other |
| RenderTimeline.PartsHaveLength | src/audio_processor.py:544-607 | no part of the output is empty |
| RenderPlan.PartsPlayTheRest | src/audio_processor.py:550-602 | the output plays exactly the episode audio no cut covers |
| RenderPlan.LayoutPlaysInOrder | src/audio_processor.py:550-602 | no audio is played twice or out of order |
| RenderPlan.AllBeepsNeverShorten | src/audio_processor.py:433-441 | an all-beep plan never shortens the episode |
| RenderPlan.RenderedRequests | src/audio_processor.py:269-602 | requests whose kinds do not overlap are planned and rendered to the closed-form length |
| EdgeIndex.BuildIndex | src/ad_reviewer.py:577-587 | sorted units and ends, prefix maxima and the words, as every query relies on |
| EdgeIndex.MatchingEndsAreAll | src/ad_reviewer.py:610-615 | the widened bisect window plus the exact test finds every end within tolerance, and no other |
| EdgeIndex.EndEdgeAgreesWithBruteForce | src/ad_reviewer.py:618-627 | an end edge is supported if and only if it moves inward onto the latest word end within tolerance, no unit straddles it and the next unit is 0.3 s away |
| EdgeIndex.StartEdgeAgreesWithBruteForce | src/ad_reviewer.py:595-607 | the negated timeline answers the mirrored question for a start edge |
| EdgeIndex.CappedFloor | src/ad_reviewer.py:658-679 | the scan from the bisected index computes the capped floor |
| EdgeIndex.CappedFloorAgreesWithBruteForce | src/ad_reviewer.py:658-679 | the capped floor is the one found by looking at all units and words, and None exactly when there is none |
| EdgeIndex.CappedFloorIsSafe | src/ad_reviewer.py:658-679 | a capped floor lies in [proposed, floor) with no independent span between it and the floor |
| EdgeHolds.HoldInwardEdges | src/ad_reviewer.py:705-719 | the loops over start and end limits compute the two holds |
| EdgeHolds.StartStopIs | src/ad_reviewer.py:711-714 | the landing place is the largest of the floor and of the barrier ends in the way |
| EdgeHolds.HoldsAreLeastHold | src/ad_reviewer.py:705-719 | over backed barriers, any list of untranscribed limits acts as its least limit alone |
| EdgeHolds.OrderMattersExactly | src/ad_reviewer.py:705-719 | the order and repetition of the limits never matter, and holding twice is holding once, if and only if every barrier without length is backed |
| EdgeHolds.BackedMeansTouching | src/ad_reviewer.py:711-719 | for barriers that are not inverted, backed means lying in or on the edge of a barrier with length, for both edges |
| EdgeHolds.HoldsWidenOverFreeAudio | src/ad_reviewer.py:705-719 | for all barriers, holds move a start only outward, over audio no barrier with length touches |
| EdgeHolds.EndHoldsBehave | src/ad_reviewer.py:715-719 | order, idempotence and widening for the end edge, by mirroring the timeline |
| EdgeHolds.EndOrderMattersExactly | src/ad_reviewer.py:715-719 | the order of end limits never matters if and only if every barrier without length is backed on the negated timeline |
| EdgeHolds.EmptyBarrierBreaksOrder | src/ad_reviewer.py:705-719 | a single empty barrier, wherever it lies, makes the order matter |
| EdgeHolds.HoldsKeepInside | src/ad_reviewer.py:705-719 | limits with any allowed floor never trim more inside the original span |
| EdgeHolds.ClipStartFrees | src/ad_reviewer.py:2157-2162 | after clipping, the part before the original start is free of barriers and nothing inside changed |
| ReviewerClamp.ClampProposedBounds | src/ad_reviewer.py:2041-2172 | the stages, run in order on two reassigned bounds |
| ReviewerClamp.NeverTrimsMoreThanAsked | src/ad_reviewer.py:2041-2172 | for a non-empty candidate the result is non-empty and, inside the original span, trims no more than the capped proposal |
| ClampEffects.CappedIs | src/ad_reviewer.py:2323-2329 | each edge of the capped proposal is the proposed one when it is within the cap, and else the nearest edge that is |
| ClampEffects.MemberFloorIs | src/ad_reviewer.py:847-858 | on a merged ad the capped proposal is widened just enough to hold every measured member |
| ClampEffects.WordlessIs | src/ad_reviewer.py:738-756 | which wordless stretches hold an edge, as an if-and-only-if on the transcript: 8 s between units, any before or after all speech, any at a measured edge |
| ClampEffects.WordlessHolds | src/ad_reviewer.py:2088-2095 | an edge proposed past such a stretch comes back to its near end, or to a barrier on the way |
| ClampEffects.CuesHoldStart | src/ad_reviewer.py:2096-2100 | a start proposed past a cue or snapped edge comes back to it, or to a barrier on the way |
| ClampEffects.RegionHoldsStart | src/ad_reviewer.py:2107-2150 | a start that lands in a measured region goes out to the region's edge, unless it is on a pause with no probe passed or stops at the word over the floor |
| ClampEffects.DaiStartIs | src/ad_reviewer.py:2107-2150 | what the regions make of a start, against a linear search of the speech instead of the index |
| ClampEffects.SilenceHoldsStartEdge | src/ad_reviewer.py:2164-2168 | absorbed silence at the start is taken in whole, or up to a barrier |
| ClampEffects.OnlyEvidenceMovesEdges | src/ad_reviewer.py:2041-2172 | an edge with no member, stretch, cue, region or silence before it is exactly the capped proposal's, clipped at kept audio |
| ClampEffects.ProposalStandsWithoutEvidence | src/ad_reviewer.py:2041-2172 | with no evidence the result is exactly the capped proposal clipped at kept audio, or the original if nothing is left |
| ReviewerClamp.RespectedMembersStayRespected | src/ad_reviewer.py:829-844 | a member the capped proposal respects is respected by the result |
| ReviewerClamp.MeasuredMembersStayCut | src/ad_reviewer.py:847-858 | on a merged ad, measured member audio inside the original span survives any proposal |
| ReviewerClamp.NeverEntersKeptAudio | src/ad_reviewer.py:2157-2168 | outside the original span the result overlaps no hard barrier |
| ReviewVerdicts.DestinationsExactly | src/ad_reviewer.py:1534-1701 | for every reply, which list the ad ends in, as an if-and-only-if per list |
| ReviewVerdicts.AcceptedBounds | src/ad_reviewer.py:1625-1701 | an accepted ad is untouched or carries the clamp of bounds the reply asked for that drop no member evidence |
| ReviewMarkers.AcceptedMarkersExactly | src/ad_reviewer.py:1773-2039 | which marker an accepted ad carries: itself if and only if it was skipped, failed or abstained but backed, or nothing asked moved an edge by over 0.1 s; else the clamp of what was asked, an edge locked if and only if the reply named it and the clamp left it there, and the same span in the verdict |
| ReviewMarkers.HeldMarkersExactly | src/ad_reviewer.py:1534-1701 | which marker an ad on any other list carries, its mark and the trim it offers |
| ReviewMarkers.VerdictsAre | src/ad_reviewer.py:1773-2039 | the verdict of every ad: its kind by the reply, each flag as an if-and-only-if, and an adjusted span for an adjustment or a contradiction's trim only |
| ReviewMarkers.AbortsExactly | src/ad_reviewer.py:1534-1701 | when an ad ends the routing loop with an exception, and when that is the rate limit |
| ReviewMarkers.ConflictsAre | src/ad_reviewer.py:2175-2183 | bounds conflict with a merged ad's evidence if and only if they keep too little of some member: under 10 s and under half, or, by its stage, all but 0.1 s or 3 s of it |
| ReviewMarkers.RecoveredTrimIs | src/ad_reviewer.py:2185-2320 | a trim is recovered from a follow-up answer exactly when the answer gives one, and it is the one that holds the regions and members of ten seconds |
| ReviewMarkers.OfferedTrimStopsAtLimits | src/ad_reviewer.py:806-814 | every limit of the evidence holds the offered trim, and an edge with no limit past it is offered as it is |
| ReviewVerdicts.HeldAdsKeepTheirBounds | src/ad_reviewer.py:1551-1663 | a held ad is marked held and keeps its bounds, except that a contradicted adjust is held on the clamped bounds it proposed; a conflict hold shows the proposal that drops member evidence |
| ReviewVerdicts.AcceptedCutsAreSafe | src/ad_reviewer.py:1773-2039 | for every reply, an accepted ad is non-empty, adds no kept audio, and drops no member's evidence |
| ReviewVerdicts.OfferedTrimIsHeld | src/ad_reviewer.py:806-814 | the bounds offered with a contradiction hold trim no more than the recovered trim |
| ReviewRouting.RunReviewBatch | src/ad_reviewer.py:1734-1771 | for every completion order the results come back in input order, or the first exception in that order surfaces |
| ReviewRouting.OrderMattersExactly | src/ad_reviewer.py:1760-1771 | all completion orders give one outcome if and only if no two reviews fail differently |
| ReviewRouting.AnyFailureCanSurface | src/ad_reviewer.py:1763-1771 | any failing review can be the one whose exception surfaces |
| ReviewLists.RouteAccepted | src/ad_reviewer.py:1534-1701 | the loop builds each list from the routed ads, or leaves with the first exception |
| ReviewLists.ListsKeepInputOrder | src/ad_reviewer.py:1534-1701 | each list holds exactly its ads, at increasing input positions |
| ReviewLists.EveryAdOnce | src/ad_reviewer.py:1534-1701 | the six lists together hold each ad once |
| ReviewLists.AddResurrections | src/ad_reviewer.py:1715-1729 | the resurrection loop's appends |
| ReviewLists.ResurrectionsOnlyAdd | src/ad_reviewer.py:1715-1729 | resurrections extend accepted and conflict lists and touch nothing else |
| ReviewLists.FailAll | src/ad_reviewer.py:1445-1462 | the failure rule over all ads, or the exception of the support check |
| ReviewLists.FailuresExactly | src/ad_reviewer.py:1445-1484 | after a failed batch each ad is accepted as it was if it is exempt or backed, and else held for the failed reviewer; none counts as backed when some support check raises |
| ReviewLists.Review | src/ad_reviewer.py:1421-1443 | both pools end to end, with the rate limit deferring and any other failure falling back, whether it comes from a worker, the routing loop or the setup before them, for all replies and orders |
| ReviewLists.EveryRunPlacesEveryAd | src/ad_reviewer.py:1421-1732 | every finished run places every ad on one list, and user-confirmed and cue-match ads stay accepted unchanged without a verdict |
| ReviewLists.EveryFinalCutIsSafe | src/ad_reviewer.py:1421-1732 | in every finished run every accepted marker is a safe cut |
| KeepRanges.UserTrimmedKeepRanges | src/ad_validator.py:109-132 | the loop over corrections computes the merged protected ranges |
| KeepRanges.KeptIsLastWriterWins | src/ad_validator.py:109-132 | an instant is protected if and only if the newest counted correction that mentions it trims it out |
| KeepRanges.KeepRangesApart | src/ad_validator.py:109-132 | ranges come out non-empty, ordered and apart |
| RestoreConfirmed.MarkerStore.Restore | src/ad_validator.py:168-205 | one restored span: the marker found or appended, and pending holds carved in place |
| RestoreConfirmed.MarkerStore.RestoreUncovered | src/ad_validator.py:135-211 | the nested loops over corrections and pieces, with the returned cuts and markers in order |
| RestoreConfirmedProofs.RestoredSpansAreClear | src/ad_validator.py:135-211 | restored spans last 1 s, do not overlap each other, prior cuts, trims, false positives or kept markers, and each is a cut marker |
| RestoreConfirmedProofs.NoHoldOverRestored | src/ad_validator.py:190-205 | no marker pending review overlaps restored audio |
| RestoreConfirmedProofs.HeldAudioIsAccounted | src/ad_validator.py:190-205 | held audio stays held, is restored, or is a sliver under 1 s |
| RestoreConfirmedProofs.ConfirmedAudioIsCovered | src/ad_validator.py:135-211 | a confirmed span not half covered by a false positive is covered by cuts, barriers, the excluded opening or leftovers under 1 s |
| RestoreExactly.RestorableIs | src/ad_validator.py:135-167 | which corrections are restored: the confirms a person filed, with the span they name, unless a false positive covers half of it |
| RestoreExactly.ConfirmedSecondsAreCovered | src/ad_validator.py:135-211 | each second of such a span is in a cut, a barrier, the excluded opening, or a leftover under 1 s |
| RestoreExactly.OnlyConfirmsAreRestored | src/ad_validator.py:135-211 | each restored span lies in the span of one such confirm, past the excluded opening |
| RestoreExactly.RestoreEditsExactly | src/ad_validator.py:168-205 | restoring one span marks one marker as cut, replaces each pending hold over the span by what is left of it, and leaves every other marker as it was |
| MarkerSplits.SplitAtTrims | src/ad_validator.py:672-694 | the loops that rewrite the marker list at each trim range |
| MarkerSplits.TrimSplitTiles | src/ad_validator.py:672-694 | a marker's fragments tile it |
| MarkerSplits.TrimSplitSettles | src/ad_validator.py:672-694 | every fragment is kept inside one range, clear of all ranges, or matched by a confirmed span |
| MarkerSplits.TrimSplitPerMarker | src/ad_validator.py:672-694 | markers are split independently and stay in order |
| MarkerSplitRules.MatchIs | src/utils/markers.py:131-147 | a marker is matched by the newest confirm whose bounds or own span have half of it, and by none when it is under a millisecond |
| MarkerSplitRules.MarkersStayWhole | src/ad_validator.py:672-694 | a marker outside every trimmed range, or left to a confirm that names a span, comes out whole |
| MarkerSplitRules.TrimmedMarkerIsCut | src/ad_validator.py:672-694 | over a range it meets, any other marker becomes the pieces before, in and after it, the middle one kept |
| MarkerSplitRules.FragmentsAreSettled | src/ad_validator.py:672-694 | after all ranges a fragment is kept inside one of them, or meets none unless left to a confirm |
| MarkerSplits.SplitMultiReleaseHolds | src/ad_validator.py:1683-1727 | the loop over holds computes their splits |
| MarkerSplitRules.HoldsSplitExactly | src/ad_validator.py:1683-1727 | a hold splits if and only if its newest confirm is a release and two or more releases of the hold reach into it one after another; else it is pinned to its only release or to that confirm |
| MarkerSplitRules.HoldsSplitPerMarker | src/ad_validator.py:1694-1727 | each marker is split on its own and the results stay in order |
| MarkerSplitRules.ReleasesAre | src/ad_validator.py:1683-1712 | the releases of a hold are those filed under its bounds or its hold id that reach into it, each once, by start |
| MarkerSplits.HoldPiecesTile | src/ad_validator.py:1683-1727 | a split hold's pieces tile it, one per release, with the release's audio in its piece; the first and last have length, an inner one exactly when its release ends past the one before |
| MarkerSplits.PieceStartsByRelease | src/ad_validator.py:1683-1727 | a piece starts no later than its release if and only if that release does not begin before the hold |
| MarkerSplits.PieceCanStartLate | src/ad_validator.py:1683-1727 | a hold that splits with its first release beginning before it, so that piece starts after its release |
| MergeCloseAds.MergeClose | src/ad_validator.py:1990-2111 | the fold over sorted markers, mutating the last one, computes the groups below |
| MergeCloseAds.GroupsAreSound | src/ad_validator.py:1990-2111 | each marker is in exactly one group, groups are runs of the sorted list, members agree on resolved action and on the saved-cut, false-positive and reject stamps, and each join was allowed |
| MergeCloseAds.GroupsAreMaximal | src/ad_validator.py:2024-2111 | two neighbouring results stay apart only where a fold was refused |
| MergeChains.FoldsIsJoinable | src/ad_validator.py:2024-2094 | a marker is folded in if and only if the chain so far and it agree in action and stamps, lie under 5 s apart or under 30 s with no speech between, and no lock stands in the way |
| MergeChains.SpeechIs | src/ad_validator.py:1640-1645 | a gap is free of speech exactly when no transcript segment reaches into it |
| MergeChains.GroupsAreChains | src/ad_validator.py:1990-2111 | the merge makes the longest joinable chains of the markers by start, and each merged marker is told from its chain |
| MergeCloseAds.MergingCoversExactly | src/ad_validator.py:1990-2111 | the merged markers cover the union of the inputs and the bridged gaps, and not an instant more |
| MergeCloseAds.DecisionsAreUntouched | src/ad_validator.py:2038-2053 | held, user-kept, large-VAD-gap and confirmed markers come out alone and unchanged |
| MergeCloseAds.GroupCoversMembersAndGaps | src/ad_validator.py:1640-1645 | a merged marker covers its members and gaps under 5 s, or speech-free ones under 30 s, and nothing else |
| MergeCloseAds.MergedAdjacencyCapped | src/ad_validator.py:1990-2111 | adjacency extension is conserved and stays at most 60 s if each input's was |
| MergeCloseAds.BridgedGapsLiePastTheLock | src/ad_validator.py:2084-2094 | in any merge, a bridged stretch lies past the first member's end lock and short of no start lock, and the merged end is locked exactly while that first lock covers it |
| MergeCloseAds.FirstLockRefusesExactly | src/ad_validator.py:2084-2091 | a merged marker that may grow refuses every marker past its end if and only if the first member's lock covers that end |
| MergeCloseAds.LaterEndLockIsLost | src/ad_validator.py:2084-2094 | a merge of three markers bridges the gap behind the second one's locked end, though the same gap stands when that marker comes first |
| AdChapters.EligibleSpans | src/ad_chapters.py:112-135 | the loop that extends the last break in place |
| AdChapters.BreaksApart | src/ad_chapters.py:112-135 | breaks are real stretches of whole seconds with time between them |
| AdChapterLaws.ChapterMarkersExactly | src/ad_chapters.py:29-58 | which markers get a chapter: cut or held ones as the settings say, by status, confidence and category |
| AdChapterLaws.TimesAreServed | src/utils/time.py:214-262 | the served time of an episode time is that time less the audio cut before it plus what is inserted for those cuts; in a cut it stands, and it never runs backwards between cuts or falls below 0 |
| AdChapterLaws.GroupsCover | src/utils/time.py:173-200 | the groups of overlapping cuts lie apart and cover exactly what the cuts cover |
| AdChapterLaws.BreaksAreExactly | src/ad_chapters.py:112-135 | the breaks cover exactly what the markers' breaks cover, each named by the first marker in it |
| AdChapterLaws.RebuildWritesExactly | src/ad_chapters.py:138-177 | a rebuild writes, by start, every topic, hidden if and only if a break shadows it, each break's entry, and a resume entry after each break the programme resumes after, and nothing else |
| AdChapters.MergeAdChapters | src/ad_chapters.py:138-177 | the rebuild with its appended entries and stable sort |
| AdChapters.StripRecoversTopics | src/ad_chapters.py:84-87 | stripping a rebuild gives back every topic, sorted when the rebuild wrote anything |
| AdChapters.NoTopicIsLost | src/ad_chapters.py:138-177 | a rebuild hides topics and never deletes one |
| AdChapters.RebuildIsIdempotent | src/ad_chapters.py:138-177 | rebuilding twice from the same markers is rebuilding once, for any stored chapters |
| AdChapters.RebuildForgetsHistory | src/ad_chapters.py:138-177 | a rebuild is independent of an earlier one, with the exact condition |
| AdChapters.HistoryCanShow | src/ad_chapters.py:138-177 | an input where an earlier rebuild shows in a later one |
| AdChapters.VisibleTopicsAvoidBreaks | src/ad_chapters.py:150-177 | every break has its chapter and no visible topic sits inside a break or on its start |
| CommunitySyncProofs.EntriesExtend | src/community_sync.py:174-243 | the entry phase keeps every row and its keys, freezes protected bodies and adds rows only for manifest ids |
| CommunityOutcomes.OutcomesExactly | src/community_sync.py:174-240 | when an entry inserts, updates, is skipped, is filtered out or fails, as an if-and-only-if for each on version, hash, protection and category |
| CommunityOutcomes.EntryRowExactly | src/pattern_service.py:1086-1145 | what an entry makes of its id's row: a new row, a rewritten body, or the row with only its activation gated by category |
| CommunitySyncProofs.DeletesAreGuarded | src/community_sync.py:250-291 | rows lost are the counted deletes, at most half of the unprotected synced rows, none without a usable entry |
| CommunityOutcomes.DeletesExactly | src/community_sync.py:250-291 | a run deletes as many rows as there are unprotected synced ones the manifest lacks, if it has a usable entry and they are at most half of those rows, and else none |
| CommunitySyncProofs.RunKeepsRow | src/community_sync.py:120-300 | a row survives a run unless, and only unless, deletes ran and it is a synced unprotected row the manifest lacks |
| CommunitySyncProofs.ProtectedRowSurvives | src/community_sync.py:120-300 | over any sequence of manifests a protected row is never deleted or re-imported |
| CommunitySyncRows.RunLooksUp | src/community_sync.py:174-243 | after any run, the row of every manifest id is what the id's own entries make of the row before, activation by category included, and ids stay distinct |
| CommunitySyncRerun.EveryEntryIsCounted | src/community_sync.py:148-300 | every manifest item is counted exactly once |
| CommunitySyncRerun.RerunAddsAndDropsNothing | src/community_sync.py:120-300 | re-applying any manifest, repeated ids included, inserts and deletes nothing |
| CommunitySyncRerun.RerunUpdatesExactly | src/community_sync.py:174-243 | it updates nothing if and only if no entry would update the row its id's own entries make |
| CommunitySyncRerun.RerunIsQuiet | src/community_sync.py:174-243 | with distinct ids, if and only if no inline entry carries, at a higher version, the hash its row already has |
| CommunitySyncRerun.SameHashKeepsUpdating | src/community_sync.py:174-243 | a manifest with one inline entry, newer under the hash its row has, that still updates on its second run |
| CommunitySyncRerun.RepeatedIdsKeepUpdating | src/community_sync.py:155-172 | a manifest with a repeated id that still updates on its second run |
| PatternTable.PatternDb.ApplyOne | src/community_sync.py:174-240 | the branches of one entry and the writes each makes |
| PatternTable.PatternDb.DeleteAbsent | src/community_sync.py:250-291 | the guard's decision and the row-by-row deletes |
| PatternTable.PatternDb.ApplyManifest | src/community_sync.py:120-300 | the three loops over the table compute the run the lemmas are about |

## Left out

- Floating-point rounding: seconds are exact reals, so the widened bisect windows are there but do no work.
- Text: prompts, regex heuristics on the reviewer's prose, reason strings and log lines; their verdicts are arbitrary inputs.
- ffmpeg, fpcalc, subprocesses, filter labels and fades: only the durations of the parts are modelled.
- Transcript parsing: speech units and timed words are inputs.
- FingerprintMatches.FindMatchesFast: pattern durations are positive, as stored fingerprints have; a pattern of no length would keep the walk in place.
- SharedExtent.LongStretchesAreMet: the stretch lies at each sibling's best offset for every probe in it, and there is a step of room between the least and the greatest length.
- ClampEffects.RegionHoldsStart: only for regions with length that overlap the candidate, which are the ones the clamp is given; the end edge is `RegionHoldsEnd`.
- MergeChains.GroupsAreChains: markers have length and a non-negative adjacency extension, as the pipeline stores them.
- SharedSegments.FindSharedSegments: the probe window and the slice step are positive, as the callers pass them.
- `_discover_repeats`, `find_matches` and the fingerprint generation around the scan.
- ReviewerClamp.MeasuredMembersStayCut: which spans count as hard members, DAI cores, probes or independent evidence is an input.
- ReviewVerdicts.AcceptedCutsAreSafe: the candidate has positive length, and members lie inside it, as the merge records them.
- ReviewLists.Review: exceptions raised after routing, while verdicts are logged; verdict logging, latency and the stamped confidence and model fields of markers; the run order of threads is any order in which all finish.
- `_fit_with_note`, cue prompt formatting and sponsor blocks.
- MergeCloseAds.MergeClose: reasons, sponsor names, DAI span bookkeeping and original twins carried along by a fold.
- MarkerSplits.SplitAtTrims: merge-span metadata clipped onto fragments by `carve_fragment`.
- Markers are values in every module but `RestoreConfirmed`, so aliasing between marker dictionaries is not captured.
- The individual hold rules, confidence scoring and sponsor confirmation of the validator.
- The `gap` and `joins` arguments of `merge_runs`.
- AdChapters.MergeAdChapters: chapter images, links and embedding in the file.
- CommunitySyncRerun.RerunUpdatesExactly: the table starts without two rows of one community id, which every run keeps so.
- PatternTable.PatternDb.ApplyManifest: primary keys are distinct; database failures, sponsor creation, timestamps and payloads that are not objects are not modelled.
- Fetching and validating the manifest, its schedule and settings.
