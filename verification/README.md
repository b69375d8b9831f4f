# A verified model of juno-txbuild

juno-txbuild plans Orchard transactions for offline signing: it selects notes, fixes the fee,
looks the notes up on the chain, attaches Merkle witnesses and returns a plan, while the node and
the scanner it reads from keep changing. This project models that planner in Dafny and proves what
its plans and its refusals mean.

| file | what it models |
|---|---|
| `Machine.dfy` | 32- and 64-bit integers and the checked addition and multiplication |
| `Notes.dfy` | notes, their total value, the sort order of the selectors, the exchange argument |
| `Fees.dfy` | the conventional fee of ZIP 317 ("Fee calculation": marginal fee 5000, two grace actions), the fee policy, dust suppression, the expiry height |
| `Selection.dfy` | the five-phase search for a send, loop by loop |
| `SelectionTheorems.dfy` | soundness, completeness, input-count minimality, pair optimality, determinism of that search |
| `Consolidation.dfy` | the search for a consolidation over prefix and suffix sums, and its two optimality results |
| `Planner.dfy`, `PlannerTheorems.dfy` | totals, change and limits of the send, sweep and consolidate planners; conservation and fee adequacy |
| `Decimal.dfy`, `Amounts.dfy`, `NoteIds.dfy` | decimal numbers, ZEC amounts, note ids, validators and filters |
| `Reservations.dfy` | runs of plans that exclude everything returned before |
| `ChainIndex.dfy` | the Orchard index over the whole chain and the cached per-block lookup |
| `Witness.dfy`, `NodePlan.dfy` | the streaming witness loop, and the notes of a node-backed plan |
| `NodePlanner.dfy` | the node-backed planner from the blocks read to the plan, and what the plan means on the anchor chain |
| `ScanPlan.dfy` | the notes of a scanner-backed plan and what the scanner's reply must satisfy |
| `ScanNotes.dfy` | the paged listing of spendable notes from the scanner |
| `AnchorProtocol.dfy`, `AnchorCounterexample.dfy` | the bracketed planning protocol as a state machine interleaved with its environment |
| `AnchorSteps.dfy` | what the protocol's steps ask of node and scanner, exactly, and the order of the reads |

How it is built: the loops of the modelled code, including the library's binary search, are methods
with invariants, proved equal to a function of their inputs (or to the stated property outright);
the theorems are lemmas about those functions.
A choice of notes is any sequence whose multiset is contained in the wallet's, so statements about
"every choice" range over all sub-multisets of any size. `Funds(q, c)` says that the choice `c`
pays the amount and its own fee with a change output counted, which is how the search itself reads
the fee rule.

These properties are false of the code; each is stated with an input and with its exact condition:

* The search refuses sends that some choice covers by burning its change: the wallet is in
  `RefusalCanMissAFundedSend`. `CoveredSendIsRefusedIff` says for every wallet and request, before
  the call, exactly when that happens, and `RefusalMissesIff` when a refusal was such a case.
* A selection can be lost by lowering the amount; `RefusalCanMissAFundedSend` holds that wallet
  too. `SelectionIsLostByLoweringIff` says exactly when, and `LoweringKeepsSelection` that a wallet
  which pays with change never loses it.
* `ParseZECToZat` guards its multiplication but not its addition: `WrappedAmountIsAccepted` gives a
  text that reads as zero, `AcceptedTextIsExactIff` the exact condition, and `AcceptedTexts` the
  result for every text.
* The anchor bracket compares hashes at two instants, so a block that is abandoned and then returns
  goes unnoticed: `ReturningBlockGoesUnnoticed` is a run that returns a plan built from a mixed
  chain. `SnapshotIffReadsHitAnchor` gives the exact condition for every run, that each read met
  the anchor chain; it follows if abandoned blocks stay abandoned (`StableChainIsHit`).
* In scanner-backed plans nothing ties the scanner's position and path to the commitment looked up
  on the node: `ReplyIsNotTiedToCommitment` builds an accepted reply whose path does not open, for
  every note. `ScanNoteOpensIff` gives the exact condition on the reply.

The repository's README says that the fee counts the change output when there is change; the search
counts it also when a selection turns out to need none. The model follows the code, and
`SendFeeIsAdequate` bounds the difference.

## Model

| member | source | states |
|---|---|---|
| Machine.AddUint64 | internal/logic/logic.go:315-321 | the wrap-around test refuses exactly the sums of 2^64 and more |
| Machine.MulUint64 | internal/logic/logic.go:323-331 | the division guard refuses exactly the products of 2^64 and more |
| Fees.FeePolicy.Apply | internal/logic/logic.go:36-50 | the policy fee is exact and fails exactly when the true fee does not fit 64 bits |
| Fees.FeeInNumbers | internal/logic/logic.go:36-63 | the policy fee in plain numbers: 5000 for each of at least two actions, times the multiplier (one when zero), plus the addend |
| Fees.ChangeOutputCost | internal/logic/logic.go:54-63 | one more output costs exactly 5000 times the multiplier, or nothing while more spends than outputs or the floor of two decide |
| Fees.SuppressDustChange | internal/logic/logic.go:65-92 | on covering totals it succeeds; acceptable change is left alone, smaller change becomes zero and goes to the fee |
| Fees.ExpiryHeightFromTip | internal/logic/logic.go:299-313 | tip + 1 + offset, refused exactly when it does not fit 32 bits |
| Notes.SortNotes | internal/logic/logic.go:103-127 | the sorted slice is ordered and keeps every candidate with its multiplicity |
| Notes.OrderedIsUnique | internal/logic/logic.go:103-127 | the comparison covers all fields, so only one arrangement is in order and an unstable sort is deterministic |
| Notes.SortedByValueIdIndex | internal/logic/logic.go:103-127 | the sorted slice in plain terms: by value in the given direction, then by transaction id byte-wise ascending, then by index |
| Notes.TopIsMaximal | internal/logic/logic.go:218-248 | exchange argument: no choice of at most k notes beats k notes that dominate the rest |
| Selection.Request.NeededTotal | internal/logic/logic.go:129-140 | amount plus fee over the integers, or overflow exactly when it does not fit |
| Selection.FindEqual | internal/logic/logic.go:142-151 | the loop of phase 1 finds the first note worth exactly the need |
| Selection.FindAtLeast | internal/logic/logic.go:153-162 | the loop of phase 2 finds the first note reaching the need |
| Selection.ExactPairIsComplete | internal/logic/logic.go:164-183 | the two-pointer walk returns the outermost exact pair, or there is none, or some pair overflows |
| Selection.ExactPairOverflowsIff | internal/logic/logic.go:164-183 | the walk ends in the overflow error iff some overflowing pair is reached before an exact one, told from the notes alone |
| Selection.FindExactPair | internal/logic/logic.go:168-182 | the two-pointer loop computes that walk |
| Selection.BestPairIsBest | internal/logic/logic.go:185-216 | the scan keeps a covering pair whose sum is below 2^64 and least, the earliest such in the ascending order, or there is none, or a covering pair overflows |
| Selection.BestPairOverflowsIff | internal/logic/logic.go:185-216 | the scan ends in the overflow error iff for some first note there are covering pairs and all of them overflow |
| Selection.SearchAscending | internal/logic/logic.go:198-200 | the binary search over the ordered notes finds the first one reaching the need |
| Selection.FindBestPair | internal/logic/logic.go:189-215 | the loop with its break and its running best computes that scan |
| Selection.FindGreedy | internal/logic/logic.go:218-249 | the largest-first loop computes the first prefix that pays for itself |
| Selection.SelectNotesWithFeePolicy | internal/logic/logic.go:98-250 | the five phases in order compute the specified search |
| SelectionTheorems.GreedyStopsAtFirstSuccess | internal/logic/logic.go:218-249 | the greedy answer is the first prefix that pays exactly or with change; every shorter one fails without overflow; overflow comes from the first round that overflows |
| SelectionTheorems.SelectionIsSound | internal/logic/logic.go:98-250 | a selection is a non-empty sub-multiset whose sum fits 64 bits and pays for the returned fee, exactly or with change |
| SelectionTheorems.SinglePhasesAreOptimal | internal/logic/logic.go:142-162 | an exact single note is taken first; otherwise the cheapest single note reaching the need; ties go to the first in sort order |
| SelectionTheorems.PairBreakIsUnreachable | internal/logic/logic.go:192-196 | once the one-note phases fail no note reaches the pair need, so the early exit is never taken |
| SelectionTheorems.PairPhasesAreOptimal | internal/logic/logic.go:164-216 | absent overflow an exact pair is returned iff one exists, else a pair of least total among all covering pairs, else the greedy phase runs |
| SelectionTheorems.PairIsDetermined | internal/logic/logic.go:164-216 | absent overflow it is the outermost exact pair, else the first of the cheapest covering pairs, with the fee of its shape |
| SelectionTheorems.SelectionIsMinimal | internal/logic/logic.go:98-250 | no sub-multiset with fewer notes pays the amount and its own with-change fee |
| SelectionTheorems.InsufficientIsTruthful | internal/logic/logic.go:98-250 | insufficient funds is returned only if no sub-multiset of any size pays the amount and its own with-change fee |
| SelectionTheorems.SelectionSucceedsIff | internal/logic/logic.go:98-250 | overflow aside, a selection is made iff some choice pays with change, or one or two notes pay exactly, or a largest-first prefix pays exactly |
| SelectionTheorems.SelectionSucceedsIffInBounds | internal/logic/logic.go:98-250 | the same, decided before the call from the largest-first prefixes, when wallet total and largest need fit 64 bits |
| SelectionTheorems.SomeChoicePaysIff | internal/logic/logic.go:218-248 | some choice of any size pays with change iff some largest-first prefix does |
| SelectionTheorems.SelectsMoreThanIff | internal/logic/logic.go:98-250 | more than k notes are selected iff nothing tested pays with k or fewer and a longer prefix does |
| SelectionTheorems.RefusalMissesIff | internal/logic/logic.go:153-162 | after a refusal some choice covers the amount without change iff the most valuable notes, as many as outputs, do, with two outputs or more |
| SelectionTheorems.CoveredSendIsRefusedIff | internal/logic/logic.go:98-250 | before the call: exactly which covered sends are refused |
| SelectionTheorems.LoweringKeepsSelection | internal/logic/logic.go:98-250 | a wallet that pays with change still pays every smaller amount |
| SelectionTheorems.SelectionIsLostByLoweringIff | internal/logic/logic.go:98-250 | lowering the amount loses a selection iff the larger amount is paid to the zatoshi and the smaller neither so nor with change |
| SelectionTheorems.RefusalMissesOnlySmallChoices | internal/logic/logic.go:153-162 | for one recipient a refusal is absolute; otherwise it can only miss choices of no more notes than outputs |
| SelectionTheorems.RefusalCanMissAFundedSend | internal/logic/logic.go:98-250 | the wallet that pays 60000 to two outputs but is refused 59999 |
| SelectionTheorems.OverflowNeedsLargeNumbers | internal/logic/logic.go:129-140 | no overflow error if the wallet total and the largest need fit 64 bits |
| SelectionTheorems.SelectionOverflowsIff | internal/logic/logic.go:98-250 | over all five phases the overflow error comes exactly under a condition on the sorted notes and the request |
| SelectionTheorems.SelectionIgnoresOrder | internal/logic/logic.go:103-127 | permuting the candidates does not change the answer |
| Consolidation.MostSmall | pkg/txbuild/txbuild.go:1225-1239 | the largest number of small notes with which k notes exceed the fee |
| Consolidation.PrefixSums | pkg/txbuild/txbuild.go:1201-1208 | the array holds every prefix sum, or the notes together overflow |
| Consolidation.SuffixSums | pkg/txbuild/txbuild.go:1209-1216 | the array holds every suffix sum, or the notes together overflow |
| Consolidation.FindMostSmall | pkg/txbuild/txbuild.go:1225-1239 | the inner loop over the two arrays finds that number; its overflow return is unreachable |
| Consolidation.FindLargestSpend | pkg/txbuild/txbuild.go:1218-1250 | the outer loop finds the largest spend that exceeds its fee |
| Consolidation.SelectNotesForConsolidation | pkg/txbuild/txbuild.go:1179-1253 | range check, sort, sums and search compute the specified consolidation |
| Consolidation.EndsFit | pkg/txbuild/txbuild.go:1228-1233 | the two slices never overlap and their sum is within the total, so the inner overflow cannot happen |
| Consolidation.ConsolidationIsSound | pkg/txbuild/txbuild.go:1218-1250 | two to the allowed number (50 when zero, at most 200) of wallet notes, worth more than the fee, which is 5000 per note times the multiplier plus the addend |
| Consolidation.ConsolidationIsMaximal | pkg/txbuild/txbuild.go:1218-1252 | every larger choice up to the allowed number is worth at most its own fee, in plain numbers; with no answer, every choice of two or more |
| Consolidation.ConsolidationPrefersSmallNotes | pkg/txbuild/txbuild.go:1225-1249 | the answer is the t smallest and the k - t largest notes, and no k notes with the t + 1 smallest exceed the fee |
| Consolidation.ConsolidationOutcome | pkg/txbuild/txbuild.go:1179-1253 | each of the four outcomes exactly when: setting out of range, total or largest fee past 64 bits, no legal choice worth more than its fee, otherwise a consolidation |
| Consolidation.ConsolidationOverflowNeedsLargeNumbers | pkg/txbuild/txbuild.go:1201-1234 | no overflow error if the wallet total and the largest fee fit 64 bits |
| Consolidation.ConsolidationIgnoresOrder | pkg/txbuild/txbuild.go:1190-1199 | permuting the candidates does not change the answer |
| Planner.SumOutputs | pkg/txbuild/txbuild.go:161-181 | the amounts loop accepts exactly positive amounts whose sum fits, and returns the sum |
| Planner.SumNotes | pkg/txbuild/txbuild.go:238-245 | the inputs loop returns the sum or overflows exactly when it does not fit |
| Planner.SelectNotesForPlan | pkg/txbuild/limits.go:181-193 | maps the selector's outcomes to error codes and applies the input limit |
| Planner.CheckSigner | pkg/txbuild/limits.go:69-87 | at most 200 inputs, canonical distinct ids, at most 200 outputs with change |
| Planner.PlanSend | pkg/txbuild/txbuild.go:125-253 | the send planner's request checks, selection and arithmetic in order |
| Planner.PlanSweep | pkg/txbuild/txbuild.go:364-460 | the sweep planner's request checks and arithmetic in order |
| Planner.PlanConsolidate | pkg/txbuild/txbuild.go:575-674 | the consolidation planner's request checks, selection and arithmetic in order |
| NodePlanner.PlanFromNode | pkg/txbuild/txbuild.go:205-313 | in every mode a plan comes out iff index, selection, witness and expiry all succeed, and carries what each promises |
| NodePlanner.PlanOpensOnAnchorChain | pkg/txbuild/txbuild.go:205-321 | if the reads met the anchor chain, each plan note is the action at its position there and its path opens that commitment to the root over the chain's commitments |
| PlannerTheorems.TotalsErrorsAreUnreachable | pkg/txbuild/txbuild.go:238-253 | after a selection the sum-overflow and invalid-totals errors cannot occur |
| PlannerTheorems.SendConservesValue | pkg/txbuild/txbuild.go:238-253 | inputs = outputs + fee + change; the change flag is right; change is zero or at least the minimum |
| PlannerTheorems.SendFeeIsAdequate | pkg/txbuild/txbuild.go:228-253 | the fee covers 5000 per final action times the multiplier asked for (20 when zero) plus the addend, with excess at most 5000 times the multiplier plus suppressed dust |
| PlannerTheorems.TooManyInputsIsTruthful | pkg/txbuild/limits.go:181-193 | too_many_inputs only if every choice of at most 200 candidates falls short of amount plus its own with-change fee |
| PlannerTheorems.SendTooManyInputsIsTruthful | pkg/txbuild/txbuild.go:233-236 | the planner's too_many_inputs rules out every choice of at most 200 candidates |
| PlannerTheorems.SendTooManyInputsIff | pkg/txbuild/txbuild.go:233-236 | a well-formed send is refused for too many inputs iff nothing the search tests pays with 200 notes or fewer and a longer prefix does |
| PlannerTheorems.InsufficientBalanceIsTruthful | pkg/txbuild/txbuild.go:222-236 | insufficient_balance only if no choice of candidates pays |
| PlannerTheorems.FundedSendIsPlanned | pkg/txbuild/txbuild.go:222-311 | a well-formed request that some choice within the signer's limit can pay, in 64 bits, yields a plan with no more notes than that choice, unless its change would be the 201st output |
| PlannerTheorems.SendOutcome | pkg/txbuild/txbuild.go:125-311 | every outcome of a well-formed send, decided before the call |
| PlannerTheorems.MalformedSendIsRefused | pkg/txbuild/txbuild.go:125-181 | a send that misses a field, has an account or expiry offset out of range, an unacceptable exclusion list or bad outputs is a bad request whatever the wallet holds |
| PlannerTheorems.CandidatesAreExact | pkg/txbuild/txbuild.go:222-226 | the candidates are the listed notes of at least the minimum and not excluded, each as often as listed |
| PlannerTheorems.SweepConservesValue | pkg/txbuild/txbuild.go:440-460 | spends all candidates into one positive output, no change, fee 5000 per action times the multiplier asked for plus the addend |
| PlannerTheorems.SweepOutcome | pkg/txbuild/txbuild.go:364-460 | every outcome of a sweep, and the whole plan, in the numbers of the request |
| PlannerTheorems.ConsolidationConservesValue | pkg/txbuild/txbuild.go:658-674 | one positive output, no change, fee 5000 per note times the multiplier asked for plus the addend, notes from the wallet |
| PlannerTheorems.ConsolidationPlanOutcome | pkg/txbuild/txbuild.go:575-674 | every outcome of a consolidation, decided before the call |
| PlannerTheorems.ConsolidationTotalsAreFine | pkg/txbuild/txbuild.go:663-674 | after a consolidation is selected the totals errors cannot occur |
| Decimal.FormatReadsBack | pkg/txbuild/limits.go:105-110 | printing then parsing an index gives it back, and prints are canonical |
| Decimal.CanonicalPrintsBack | pkg/txbuild/limits.go:29-32 | parsing then printing canonical digits gives the text back |
| NoteIds.AcceptedIffPrinted | pkg/txbuild/limits.go:89-110 | an id passes the pattern and range checks iff it is 64 lower-case hex digits, a colon and a printed uint32 |
| NoteIds.NoteIdIsInjective | pkg/txbuild/txbuild.go:257-266 | different outpoints never share a key, whatever the txid text |
| NoteIds.ValidateExcludedNoteIds | pkg/txbuild/limits.go:122-153 | succeeds exactly on canonical distinct ids and returns them as a set |
| NoteIds.FilterNotesMinValue | internal/logic/logic.go:18-29 | keeps exactly the notes of at least the minimum, in order |
| NoteIds.FilterExcludedUnspentNotes | pkg/txbuild/limits.go:155-168 | keeps exactly the notes whose id is not excluded, in order |
| NoteIds.FilterKeeps | pkg/txbuild/limits.go:155-168 | a filter keeps every occurrence of what it keeps and nothing else |
| NoteIds.FilterKeepsOrder | internal/logic/logic.go:18-29 | what a filter keeps of two listings in a row comes in a row |
| Reservations.PlanAvoidsExcluded | pkg/txbuild/limits.go:155-168 | in every mode the plan spends listed notes of at least the minimum, none excluded, with distinct canonical ids |
| Reservations.RunIsDisjoint | pkg/txbuild/limits.go:122-168 | plans that exclude all earlier ids never share a note |
| Reservations.ReservedIsAccepted | pkg/txbuild/limits.go:122-153 | everything returned so far is accepted as the next exclusion list |
| Reservations.SweepIgnoresListingOrder | pkg/txbuild/txbuild.go:427-460 | a sweep's amount, fee, refusals and multiset of notes do not depend on the order of the listing |
| Reservations.PlansIgnoreListingOrder | pkg/txbuild/txbuild.go:222-236 | sends and consolidations do not depend on the order of the listing |
| ChainIndex.IndexTx | internal/chain/scan.go:120-146 | one transaction extends commitments, outpoints and the 32-bit position, or fails on a bad encoding |
| ChainIndex.BuildOrchardIndex | internal/chain/scan.go:76-151 | the nested loops build the index of the whole chain, failing exactly on a missing txid or bad encoding |
| ChainIndex.IndexBuildsIff | internal/chain/scan.go:115-141 | the index builds iff every transaction has an id and every action three 32-byte hex fields and 52 bytes of hex ciphertext |
| ChainIndex.IndexIsLocated | internal/chain/scan.go:105-148 | up to 2^32 actions: commitments in chain order, every outpoint indexed, each entry at the last position of its key with that action's nullifier, commitment, ephemeral key and first 104 ciphertext digits |
| ChainIndex.IndexAgreesWithTree | internal/chain/scan.go:138-148 | the commitment at an entry's position is the entry's, and distinct outpoints have distinct positions |
| ChainIndex.PositionIsRank | internal/chain/scan.go:105-148 | with unique txids the position is the number of actions before it in chain order |
| ChainIndex.BlockCache.OrchardActionForNote | pkg/txbuild/txbuild.go:1444-1487 | with a cache of chain blocks the answer is the chain's, and the cache stays one |
| ChainIndex.LookupFindsIff | pkg/txbuild/txbuild.go:1444-1487 | a lookup finds exactly the fields of the action in the first transaction with the id, if encoded in full |
| ChainIndex.ActionsForNotes | pkg/txbuild/txbuild.go:808-833 | the loop over the selected notes with one cache answers each as it would on its own |
| ChainIndex.LookupsAgree | pkg/txbuild/txbuild.go:1444-1487 | on a chain with unique txids whose index builds, block lookup and index find the same outpoints with the same four fields |
| NodePlan.AssembleNotes | pkg/txbuild/txbuild.go:255-288 | every plan note carries its index entry and a path that opens its commitment to the anchor; fails exactly on an unindexed note or invalid request |
| NodePlan.IndexedNotesMakeValidRequest | pkg/txbuild/txbuild.go:255-288 | distinct indexed notes never make an out-of-range or repeated position |
| Witness.OrchardWitness | rust/txbuild/src/lib.rs:69-143 | valid requests get the root and one path per position in request order; all others are invalid; internal errors never occur |
| Witness.StreamLeaves | rust/txbuild/src/lib.rs:102-116 | every requested position gets a witness that stands for all leaves although created mid-stream |
| Witness.CollectPaths | rust/txbuild/src/lib.rs:121-138 | every slot is filled with the path of its own position |
| Witness.WantedPositions | rust/txbuild/src/lib.rs:94-100 | fails exactly on a repeated position, else maps each to its slot |
| Witness.PathsOpenToTheRoot | rust/txbuild/src/lib.rs:118-133 | each path recomputes the root over all leaves (Zcash Protocol Specification, sections 3.8 and 4.9) |
| Witness.UnfilledIsUncommitted | rust/txbuild/src/lib.rs:102-133 | the unfilled part of the tree counts as uncommitted leaves: adding one changes neither root nor paths (Zcash Protocol Specification, section 3.8) |
| ScanNotes.Judge | pkg/txbuild/txbuild.go:1313-1366 | keeps exactly the notes passing every filter, with their fields; fails exactly on a note of neither direction or one past every filter whose position exceeds 32 bits; skips the rest |
| ScanNotes.CollectIsExact | pkg/txbuild/txbuild.go:1305-1380 | the listing is exactly the passing notes, in order; it fails iff one has neither direction, or only its position is too large, or two passing notes share an id |
| ScanNotes.CollectPage | pkg/txbuild/txbuild.go:1313-1367 | the loop over one page continues the listing of the notes before it |
| ScanNotes.ListSpendableNotes | pkg/txbuild/txbuild.go:1290-1380 | the paging loop depends only on the concatenated pages and ends over any finite set of cursors |
| ScanNotes.MetadataIsTotal | pkg/txbuild/txbuild.go:802-816 | every selected note has its own metadata |
| ScanNotes.AllStillListed | pkg/txbuild/txbuild.go:1387-1397 | passes iff every selected note is listed with the same value |
| ScanNotes.VerifySelectedNotesStillSpendable | pkg/txbuild/txbuild.go:1382-1398 | lists again and passes only if every selected note is there with the same value; fails only on a failed listing or a note that is not |
| ScanPlan.AssembleScanNotes | pkg/txbuild/txbuild.go:808-856 | a scanner-backed plan comes out iff the reply has the right shape, with the path named last for each position |
| ScanPlan.LastPathIff | pkg/txbuild/txbuild.go:846-849 | when the reply names a position more than once its last entry counts |
| ScanPlan.ReplyIsNotTiedToCommitment | pkg/txbuild/txbuild.go:835-856 | for every note some accepted reply gives a path that does not open its commitment |
| ScanPlan.ScanNoteOpensIff | pkg/txbuild/txbuild.go:846-856 | with the tree's root and an injective hash the note opens iff the position holds its commitment and the path is the tree's |
| ScanPlan.HonestReplyOpens | pkg/txbuild/txbuild.go:808-856 | position and path taken from the chain open the looked-up action |
| ScanPlan.ScanPlanOpensOnAnchorChain | pkg/txbuild/txbuild.go:755-893 | the same for a returned run whose reads met the anchor chain |
| AnchorProtocol.RunKeepsInv | pkg/txbuild/txbuild.go:185-321 | what every step of planner and environment keeps, over every run |
| AnchorProtocol.ReadsAreAnchorBlocksIff | pkg/txbuild/txbuild.go:205-321 | in either mode the blocks read are the anchor chain's iff each read met it on the node |
| AnchorProtocol.SnapshotIffReadsHitAnchor | pkg/txbuild/txbuild.go:205-321 | a returned node-backed plan is built from one atomic read of the anchor chain iff each read met it |
| AnchorProtocol.StableChainIsHit | pkg/txbuild/scan_readiness.go:55-92 | if abandoned blocks stay abandoned every read between the checks met the anchor chain |
| AnchorProtocol.PlanIsFromOneSnapshot | pkg/txbuild/txbuild.go:205-213 | then a returned node-backed plan used the index of one atomic read of the chain ending at the anchor |
| AnchorProtocol.HitsLookUpInAnchor | pkg/txbuild/txbuild.go:808-833 | whenever each read met the anchor chain, cached lookups answer as in the anchor snapshot |
| AnchorProtocol.LookupsAreFromOneSnapshot | pkg/txbuild/txbuild.go:755-893 | the scanner was healthy, at the anchor's height and with the hash of the anchor chain at both ends, and lookups answer as in the anchor snapshot if abandoned blocks stay abandoned |
| AnchorProtocol.ReturnedPlanIsStillMineable | pkg/txbuild/txbuild.go:1158-1177 | same network and branch, and the tip advanced at most the expiry offset less three |
| AnchorSteps.QuietOpeningIff | pkg/txbuild/scan_readiness.go:55-75 | while nothing changes planning begins iff the chain has 1 to 2^32 blocks, its tip hash is not empty and the scanner, if used, is healthy at height and hash |
| AnchorSteps.QuietReadIff | internal/chain/scan.go:106-114 | a read brings exactly the block at its height, a new one up to the anchor's and in node-backed mode the next |
| AnchorSteps.QuietPlanReturnsIff | pkg/txbuild/txbuild.go:205-321 | while nothing changes a finished plan is returned iff index, anchor, scanner, network, branch and expiry margin all hold |
| AnchorSteps.RunReadsInOrder | internal/chain/scan.go:106-114 | in every run a node-backed planner reads the heights from zero upwards, one after the other |
| AnchorCounterexample.ReturningBlockGoesUnnoticed | pkg/txbuild/scan_readiness.go:55-92 | without the assumption a run returns a plan whose index is not the anchor chain's |
| Amounts.AmountRoundTrip | internal/logic/logic.go:260-297 | every uint64 printed with eight decimals parses back |
| Amounts.TrailingZerosDoNotMatter | internal/logic/logic.go:275-282 | trailing fractional zeros up to eight digits change nothing |
| Amounts.PointIsOptional | internal/logic/logic.go:275-282 | a bare whole part reads like one followed by a point |
| Amounts.WholePartIsOptional | internal/logic/logic.go:275-278 | an absent whole part reads like a zero |
| Amounts.AcceptedTextIsExactIff | internal/logic/logic.go:284-296 | an accepted text is read exactly iff its value fits 64 bits |
| Amounts.AcceptedTexts | internal/logic/logic.go:260-297 | for every text: accepted iff unsigned, at most eight fraction digits and a small enough whole part, and then read modulo 2^64 |
| Amounts.WrappedAmountIsAccepted | internal/logic/logic.go:293-296 | one zatoshi past the range is accepted as zero |

## Left out

- Witness.OrchardWitness: the internals of the incremental Merkle tree library are not visible; a tree is its leaves, a witness the leaf prefix plus the leaves appended since, the node hash and the leaf decoding are parameters, and the library's own caching is not modelled.
- AnchorProtocol.SnapshotIffReadsHitAnchor: assumes collision-free block hashes; the listing of unspent notes is not part of the snapshot, because the node answers it from its wallet at its own moment.
- AnchorProtocol.LookupsAreFromOneSnapshot: says nothing about positions and paths, which are the scanner's (see `ScanPlan`).
- ScanNotes.ListSpendableNotes: terminates only for scanners that name finitely many cursors; against one that names new cursors for ever the source loops for ever too.
- Planner.PlanSend: stops before index, witness and expiry, which `NodePlanner.PlanFromNode` adds; the closing anchor checks are steps of `AnchorProtocol`.
- Planner.PlanSweep: stops before index, witness and expiry, which `NodePlanner.PlanFromNode` adds; the closing anchor checks are steps of `AnchorProtocol`.
- Planner.PlanConsolidate: stops before index, witness and expiry, which `NodePlanner.PlanFromNode` adds; the closing anchor checks are steps of `AnchorProtocol`.
- NodePlanner.PlanFromNode: which of several failing stages names the error is not kept.
- Fees.ChangeOutputCost: needs counts for which 5000 times the actions fits 64 bits, since the source multiplies unchecked; the planners allow 200 inputs and outputs.
- The sort is modelled by its result (`SortNotes`); the algorithm of the Go library does not matter because the result is unique.
- The addition `outputCount + 1` on a Go `int` is not wrapped.
- Trimming and lower-casing of text from the node, the scanner and the user: all text is taken as already normalised; regular expression and number parsing are modelled by what they accept. Output amounts are numbers, not decimal text.
- The filter on scanner notes in the scanner-backed sweep, which repeats `FilterExcludedUnspentNotes` on another record, and the filter of `z_listunspent` by pool and account.
- Decoding of `getblockchaininfo`, the coin-type table, HTTP, JSON, bearer tokens, the command line and the C string interface.
- Error message texts; only error kinds are kept.
