# Plecto control plane: a verified model

A Dafny model of the algorithmic cores of Plecto's control crate and of two protocol pieces of its
benchmark tools, with proofs of what they promise. `dafny verify dfyconfig.toml` checks everything.

- **Weighted split** (`Apportionment`, `Deviation`, `Webster`, `Gcd`, `WeightedSplit`, `Crowded`,
  `SplitDeviation`, `WeightedBackends`): the maximum-deficit schedule of a canary split, how far it strays from the ideal
  shares, its reductions, and the cursor that walks it.
- **Maglev table** (`Permutation`, `MaglevTurns`, `Maglev`, `MaglevShares`): the weighted fill of the
  consistent-hash table, for arbitrary hash values.
- **Bounded draw** (`BoundedDraw`): multiply-shift with rejection, and two distinct indices.
- **Filter chain** (`Headers`, `ChainSpec`, `Chain`): header edits, and inline dispatch with resumption
  against the plain blocking run.
- **Session-ticket keys** (`Stek`, `StekTicketer`): ticket framing and the rotating-key state machine.
- **Routing** (`Segments`, `NormalizePath`, `PathPrefix`, `RouteSelect`): path normalisation, the prefix
  test and strip, and route selection.
- **Reload** (`Health`, `Registry`, `ReloadChecks`, `Reload`): the build and swap of a configuration beside
  the upstream registry that outlives it, with the health of every instance.
- **Bench tools** (`TokenPacing`, `WsFrames`, `WsCodec`, `WsEcho`): the load generator's token counter
  under every interleaving, and the RFC 6455 frame codecs.
- **Shared** (`Arithmetic`, `Counting`, `Words`, `Ascii`, `Wrappers`): division and counting facts, word sizes,
  lower case and result types.

Strings are sequences of bytes, one `char` each. Clocks, files, random draws, hash values, filter
behaviour and group eligibility are parameters. The primitives of the ticket construction are given
functions with stated laws: decryption inverts encryption, ciphertext is at least one block, tags and
key names have their lengths. Where a theorem needs two contents to have different digests or key
names it says so of the contents in play only.

## Where the code and its documentation differ

- `plecto/crates/control/src/weighted.rs:16-18` and 163 claim a deviation below one pick at all times.
  Being ahead is always below one; being behind is bounded by H(n) - 1. For the bare rule, with no
  limit on the table, the claim holds for all weights of n backends exactly when n <= 3
  (`Deviation.WithinOneExactlyUpToThree`). For the splits that validation accepts it holds exactly when
  n <= 3 or n >= 65,025, where nearly all weights have to be one
  (`SplitDeviation.AcceptedWithinOneExactly`).
- `plecto/crates/control/src/weighted.rs:13-17` calls the rule Webster's method and says that it minimises the
  worst-case deviation. The first holds for all weights of n backends exactly when n <= 2
  (`Webster.WebsterExactlyUpToTwo`); the second fails for the weights 1, 4, 4
  (`Webster.NotTheSmallestWorstCase`), while with two backends every count is the nearest
  (`Webster.TwoAreNearest`).
- `plecto/crates/control/src/weighted.rs:24-28` describes the cursor as walking the schedule for
  ever. It does until it has gone round once at 2^64, and after that exactly for table lengths that
  divide 2^64 (`WeightedBackends.OnScheduleForever`).
- `plecto/crates/control/src/route.rs:1009-1012` describes `/api` stripped from `/api` as `/`. The server
  passes the target with its query, and for `/api?x` nothing is stripped. The manifest
  (`plecto/crates/control/src/manifest/route.rs:41-43`) also accepts a strip with a question mark in it,
  which is then matched against the query: `/a?x` makes `/../y` of `/a?x/../y`. Those are the only ways a
  query makes a difference (`PathPrefix.StripWithQuery`), and the second is the only way the forwarded
  target can lose its normal form (`PathPrefix.StripPreservesExactly`). A strip ending in a slash also
  swallows an empty segment it meets (`PathPrefix.StripIsBySegments`).
- `plecto/crates/control/src/stek.rs:107-109` says that a ticket never claims to outlive the key that sealed
  it. The advertised lifetime is always the whole age limit, so this holds only for tickets issued no
  later than the key file's time stamp (`Stek.ClaimKeptExactly`); acceptance is bounded all the same.
- `bench/loadgen/src/main.rs:340-341` caps the backlog. Give-backs of failed takes may land after the
  pacer filled up, so the bound is the cap plus the number of workers, or what the slots of the run can
  bring if that is less, and it is reached (`TokenPacing.MostTokensIsReached`). The cap itself holds
  exactly without workers or in runs too short to bring more than the cap (`TokenPacing.CapHoldsExactly`).
- `plecto/crates/host/src/errors.rs:67-68` says every fault but a deadline answers 502. An unavailable filter
  answers 503 (`Chain.FailClosedIsServerError`).
- `bench/harnesses/bench-server/ws.rs:38-39` and `bench/loadgen/src/ws.rs:104-106` promise a clean end only
  before any byte of a frame. One stray byte is reported the same way (`WsCodec.EndIffNoHead`), and the
  client ends on a close frame too (`WsCodec.ClientEndIffNoHeadOrClose`).

## Model

| member | source | states |
|---|---|---|
| `Apportionment.WeightedSchedule` | plecto/crates/control/src/weighted.rs:169-187 | the build loop over a mutable deficit vector tabulates exactly one period of the maximum-deficit rule; the 16-bit narrowing is lossless up to 2^16 backends |
| `Apportionment.ServeNext` | plecto/crates/control/src/weighted.rs:174-185 | one step credits everyone, serves the leader and debits it the total |
| `Apportionment.CreditAll` | plecto/crates/control/src/weighted.rs:175-182 | the running comparison finds the lowest index holding the greatest credited deficit |
| `Apportionment.DeficitIsShortfall` | plecto/crates/control/src/weighted.rs:161-162 | a deficit is exactly t * w_i - total * (times served): how far the backend is below its fair share |
| `Apportionment.DeficitsSumToZero` | plecto/crates/control/src/weighted.rs:161-165 | the deficits always sum to zero |
| `Apportionment.ServedCounts` | plecto/crates/control/src/weighted.rs:169-187 | in the tabulated schedule the number of turns of a backend is the number of its entries |
| `Apportionment.FullPeriod` | plecto/crates/control/src/weighted.rs:24-28 | one period serves every backend exactly its weight and returns all deficits to zero |
| `Apportionment.Periodic` | plecto/crates/control/src/weighted.rs:24-28 | the pick sequence has the period Sum(weights), from any point |
| `Apportionment.AnyWindow` | plecto/crates/control/src/weighted.rs:24-28 | every window of one period, wherever it starts, serves each backend exactly its weight |
| `Apportionment.NeverAheadByOne` | plecto/crates/control/src/weighted.rs:159-165 | no backend is ever ahead of its ideal cumulative count by one or more, for any weights and any time |
| `Deviation.SelectedWithinAllowance` | plecto/crates/control/src/weighted.rs:159-165 | the invariant: any k of the n deficits sum to at most k * total * (H(n) - H(k)) |
| `Deviation.BehindAtMostHarmonic` | plecto/crates/control/src/weighted.rs:159-165 | no backend is ever behind its ideal count by more than H(n) - 1 |
| `Deviation.FamilyFallsBehind` | plecto/crates/control/src/weighted.rs:159-165 | the bare rule breaks the claimed bound of one: weights 2 : 9 : 61 : 61 scaled, beside any number of weight-one backends, leave one backend behind by more than a whole pick after 24 picks |
| `Deviation.WithinOneExactlyUpToThree` | plecto/crates/control/src/weighted.rs:159-165 | for the bare rule, whatever the size of the table, the claimed deviation below one holds for all weights of n backends if and only if n <= 3 |
| `Crowded.AlwaysCapped` | plecto/crates/control/src/weighted.rs:159-187 | if (e + 1)^2 <= 4 W, where the weights exceed one each by e in total, no backend is ever further above an unserved backend of weight one than the excess of all the others |
| `Crowded.CrowdedWithinOne` | plecto/crates/control/src/weighted.rs:159-165 | n > 4 backends whose weights exceed one each by e in total stay within one pick at all times if (e - 1)^2 <= 4 n |
| `SplitDeviation.PairFallsBehind` | plecto/crates/control/src/weighted.rs:159-165 | weight-one backends, one of any weight, and two of weight e + 1, with a total of e^2 and at least 3e backends: one of the two falls a whole pick behind |
| `SplitDeviation.SomeAcceptedFallsBehind` | plecto/crates/control/src/weighted.rs:122-165 | for every n from 4 to 65,024 there is a split of n live backends that the validation accepts and whose schedule leaves a backend behind by a whole pick |
| `SplitDeviation.AcceptedWithinOneExactly` | plecto/crates/control/src/weighted.rs:122-165 | the claimed deviation below one holds for every accepted split of n live backends if and only if n <= 3 or n >= 65,025 |
| `Webster.WebsterExactlyUpToTwo` | plecto/crates/control/src/weighted.rs:13-15 | after every number of picks the counts are a Webster (Sainte-Lague) apportionment, for all weights of n backends, if and only if n <= 2 |
| `Webster.TwoAreNearest` | plecto/crates/control/src/weighted.rs:15-17 | with at most two backends no other count would be nearer to the ideal one, at any time |
| `Webster.NotTheSmallestWorstCase` | plecto/crates/control/src/weighted.rs:15-17 | with three the worst case is not the smallest: weights 1, 4, 4 stray by 7/9 of a pick where another order of the same picks stays within 6/9 |
| `Gcd.Compute` | plecto/crates/control/src/weighted.rs:151-157 | the loop computes Euclid's recursion |
| `Gcd.DividesAll` | plecto/crates/control/src/weighted.rs:79-80 | the folded divisor divides every weight, so the reduction is exact |
| `Gcd.GreatestOfAll` | plecto/crates/control/src/weighted.rs:79-80 | and it is the greatest, in the form: what divides p times every weight divides p times it |
| `WeightedSplit.AcceptedSplits` | plecto/crates/control/src/weighted.rs:122-147 | a split is accepted exactly when some weight is non-zero, none exceeds the cap and the reduced table fits; the reported length is the table's |
| `WeightedSplit.RefusalReasons` | plecto/crates/control/src/weighted.rs:127-147 | which refusal: an empty list, then the first weight over the cap, then nothing but drained backends, then a reduced table over the limit; each exactly when |
| `WeightedSplit.WordsSuffice` | plecto/crates/control/src/weighted.rs:169-186 | on an accepted split every deficit stays in the signed 64-bit range and every index in the unsigned 16-bit one |
| `WeightedSplit.DrainedNeverPicked` | plecto/crates/control/src/weighted.rs:71-78 | dropping weight-zero backends changes the schedule only by renaming indices, ties included |
| `WeightedSplit.ScaleInvariant` | plecto/crates/control/src/weighted.rs:79-80 | multiplying all weights by k multiplies every deficit by k and changes no pick |
| `WeightedSplit.TableRefinesRule` | plecto/crates/control/src/weighted.rs:67-87 | the table of the filtered, reduced weights, walked modulo its length, makes for ever the picks of the plain rule on the weights as written |
| `WeightedSplit.TableIsShortest` | plecto/crates/control/src/weighted.rs:71-80 | every period of the schedule is a multiple of the table length: no shorter table could hold it |
| `WeightedBackends.New` | plecto/crates/control/src/weighted.rs:67-87 | compilation is refused for exactly the reasons of the validation, otherwise yields the live groups, the table and a zero cursor |
| `WeightedBackends.TableUsable` | plecto/crates/control/src/weighted.rs:93-94 | every table entry names a group and every group is in the table |
| `WeightedBackends.Backends.Pick` | plecto/crates/control/src/weighted.rs:96-119 | no pick exactly when no group is eligible, and then the cursor stays; otherwise the group at table[(cursor + d) % length] for the least d whose group is eligible, and the cursor moves by one modulo 2^64 |
| `WeightedBackends.PickSkipsForward` | plecto/crates/control/src/weighted.rs:30-33 | that group is the one the rule picks at step cursor + d, and every pick the rule makes from the cursor up to there is ineligible |
| `WeightedBackends.AnyPeriodOfPicks` | plecto/crates/control/src/weighted.rs:89-92 | one table length of consecutive picks, from any cursor unless it wraps on the way and the table length does not divide 2^64: every backend gets exactly its weight when all are up; when some are down those get none and every other at least its own weight |
| `WeightedBackends.PickFollowsRule` | plecto/crates/control/src/weighted.rs:21-28 | with everything up, the pick at cursor c is the one the lock-holding rule would make at step c on the manifest's weights |
| `WeightedBackends.PickTimes` | plecto/crates/control/src/weighted.rs:96-119 | requests one after the other take the groups of the specified run and advance the cursor modulo 2^64 |
| `WeightedBackends.OnScheduleForever` | plecto/crates/control/src/weighted.rs:89-119 | the first 2^64 picks are those of the rule, and all picks for ever are if and only if the table length divides 2^64 |
| `Permutation.EverySlotIsReached` | plecto/crates/control/src/maglev.rs:6-9 | for prime M and skip in 1..M-1 the preference sequence reaches every slot within M steps |
| `Maglev.PreferenceOrder` | plecto/crates/control/src/maglev.rs:63-73 | a backend's first slot is h1 mod M, and each next one is 1 + h2 mod (M - 1) slots on, going round |
| `Maglev.SameOrderIff` | plecto/crates/control/src/maglev.rs:6-9 | two backends prefer the slots in the same order if and only if their hashes agree modulo M and M - 1 |
| `MaglevTurns.TargetDecides` | plecto/crates/control/src/maglev.rs:94-97 | the running target lets a backend take its turn exactly when the closed form floor((r-1) * w / max) + 1 grows |
| `MaglevTurns.RoundsCount` | plecto/crates/control/src/maglev.rs:77-79 | after r rounds a backend has taken exactly floor((r-1) * w / max) + 1 turns |
| `MaglevTurns.RoundNotEmpty` | plecto/crates/control/src/maglev.rs:88-98 | every round takes at least one turn, so the fill terminates |
| `MaglevTurns.StoppedRun` | plecto/crates/control/src/maglev.rs:109-111 | stopping in the middle of a round once M turns are taken leaves exactly the first M turns of the order |
| `Maglev.ProbeAndClaim` | plecto/crates/control/src/maglev.rs:98-107 | the probe loop terminates, and claims the backend's most-preferred slot among all empty ones although it starts from a remembered rank |
| `Maglev.ProbeAt` | plecto/crates/control/src/maglev.rs:101-104 | the wrapping 64-bit position arithmetic never wraps under the table-size cap |
| `Maglev.WordsSuffice` | plecto/crates/control/src/maglev.rs:71-97 | with 32-bit weights and tables below the cap, neither round * weight nor any target, advanced once more, leaves 64 bits |
| `Maglev.OneTurn` | plecto/crates/control/src/maglev.rs:90-108 | one backend's turn in a round, on wrapping 64-bit words, keeps targets, ranks and table in step with the turn order |
| `Maglev.OneRound` | plecto/crates/control/src/maglev.rs:88-113 | one round, up to the point where the table is full |
| `Maglev.FillAll` | plecto/crates/control/src/maglev.rs:79-113 | the outer loop terminates with the reference table |
| `Maglev.Build` | plecto/crates/control/src/maglev.rs:49-119 | for any hash values: an empty table when no backend can take a turn or M < 2, otherwise the first M turns of the weighted order, one most-preferred claim each |
| `Maglev.MaglevTable` | plecto/crates/control/src/maglev.rs:115-118 | every slot of the table holds a backend index in range, and each backend owns as many slots as it took turns |
| `Maglev.Lookup` | plecto/crates/control/src/maglev.rs:126-134 | no instance exactly for the empty table, otherwise the entry at the key hash modulo the table length |
| `MaglevShares.LookupAt` | plecto/crates/control/src/maglev.rs:126-134 | a key hash below the table length is answered by its own slot, and so is any hash one table length on |
| `MaglevShares.SameRemainderSameInstance` | plecto/crates/control/src/maglev.rs:121-134 | key hashes with the same remainder modulo the table length go to the same instance |
| `MaglevShares.KeysFollowSlots` | plecto/crates/control/src/maglev.rs:121-134 | of any m consecutive key hashes exactly as many are sent to a backend as it owns slots |
| `MaglevShares.KeysFollowWeights` | plecto/crates/control/src/maglev.rs:13-20 | so among any m consecutive key hashes |sent_i * w_j - sent_j * w_i| < w_i + w_j |
| `Maglev.OwnedIsTurns` | plecto/crates/control/src/maglev.rs:77-113 | the slots of every backend are its turns of r or r-1 whole rounds, for one common r |
| `Maglev.SharesFollowWeights` | plecto/crates/control/src/maglev.rs:13-20 | the absolute value of count_i * w_j - count_j * w_i below w_i + w_j for any two backends of positive weight |
| `MaglevShares.EveryoneOwnsASlot` | plecto/crates/control/src/maglev.rs:77-78 | with M >= N every backend of positive weight owns at least one slot |
| `MaglevShares.SharesAddUp` | plecto/crates/control/src/maglev.rs:81-111 | the shares add up to the table size |
| `MaglevShares.BelowTwoSlotsAhead` | plecto/crates/control/src/maglev.rs:13-20 | a share exceeds the proportional one by less than 1 + w_i / max slots, so by less than two, for any number of backends |
| `MaglevShares.NearProportional` | plecto/crates/control/src/maglev.rs:13-20 | a share differs from the proportional one, either way, by at most ((n-1)(w_i-1) + W - w_i) / W slots |
| `MaglevShares.EqualWeightsBalance` | plecto/crates/control/src/maglev.rs:8-11 | equal weights give every backend floor or ceil of M / N slots |
| `BoundedDraw.Stream.Below` | plecto/crates/control/src/rng.rs:66-79 | the value is that of the first accepted draw, and nothing after it is consumed |
| `BoundedDraw.LowDecides` | plecto/crates/control/src/rng.rs:71-77 | comparing the low word with n first, and computing the threshold only then, never changes the verdict |
| `BoundedDraw.NegMod` | plecto/crates/control/src/rng.rs:72 | the wrapped negation modulo n is 2^64 mod n |
| `BoundedDraw.DrawsFor` | plecto/crates/control/src/rng.rs:63-65 | the accepted draws mapping to k are an interval of floor(2^64 / n) consecutive words |
| `BoundedDraw.EveryValueEquallyLikely` | plecto/crates/control/src/rng.rs:63-65 | for every n below 2^32 and k < n exactly floor(2^64 / n) of the 2^64 draws are accepted and give k |
| `BoundedDraw.Stream.TwoDistinctBelow` | plecto/crates/control/src/rng.rs:83-91 | the pair is the spread of the two deciding draws; none exactly when the stream ends before both, and nothing beyond the second is consumed |
| `BoundedDraw.FirstTwo` | plecto/crates/control/src/rng.rs:83-91 | the deciding draws are the first accepted for n and the first after it accepted for n - 1; none exactly if there are no such two |
| `BoundedDraw.SpreadIsBijective` | plecto/crates/control/src/rng.rs:81-91 | moving the second index past the first maps [0,n) x [0,n-1) one-to-one onto the ordered distinct pairs |
| `BoundedDraw.EveryPairEquallyLikely` | plecto/crates/control/src/rng.rs:81-91 | every ordered pair of distinct indices comes from the same number of accepted draw pairs |
| `Headers.RemoveHeaders` | plecto/crates/control/src/chain.rs:398-402 | the removal loop drops exactly the headers whose names, compared without ASCII case, are listed |
| `Headers.SetHeaders` | plecto/crates/control/src/chain.rs:404-415 | the set loop leaves the headers it does not replace, in order, followed by the set lines that no later line of the same name overwrites |
| `Headers.ApplyEdit` | plecto/crates/control/src/chain.rs:374-379 | removals, then sets, in closed form |
| `Headers.EditedReads` | plecto/crates/control/src/chain.rs:404-421 | after an edit a set, non-repeatable name occurs exactly once with its last value, Set-Cookie lines append in order, anything else reads as before unless removed |
| `Headers.EditedIsEdit` | plecto/crates/control/src/chain.rs:350-421 | an edit said on the lines before and after: every name reads as documented, untouched lines keep their order, and every line comes from the old ones or the sets |
| `Headers.UntouchedKeepOrder` | plecto/crates/control/src/chain.rs:374-402 | headers an edit does not name keep their relative order |
| `ChainSpec.DriveSplits` | plecto/crates/control/src/chain.rs:143-159 | interrupting the plain blocking run anywhere and resuming it there changes nothing: outcome, state and call log |
| `ChainSpec.CallsInOrder` | plecto/crates/control/src/chain.rs:149-158 | the filters called are the first of the chain, each once and in order, all of them when the message passes |
| `ChainSpec.NothingAfterAnswer` | plecto/crates/control/src/chain.rs:132-137 | no filter after the one that answered is called or has any say |
| `ChainSpec.PassedIffAllWentOn` | plecto/crates/control/src/chain.rs:99-115 | a message passes exactly when every filter passes on what it is given |
| `Chain.HandleRequestStep` | plecto/crates/control/src/chain.rs:99-115 | one request decision, failing closed on a run error |
| `Chain.HandleResponseStep` | plecto/crates/control/src/chain.rs:216-235 | one response decision, failing closed on a run error |
| `Chain.RequestDecisionTakesEffect` | plecto/crates/control/src/chain.rs:99-115 | in a run, an edit a filter returns is applied to the request it was given and changes nothing else; a short circuit answers with exactly its response; a failure with its status and fault header |
| `Chain.ResponseDecisionTakesEffect` | plecto/crates/control/src/chain.rs:216-235 | the same on the way back, with the status |
| `Chain.RequestBodyDecisionTakesEffect` | plecto/crates/control/src/chain.rs:173-200 | a request body a hook returns is the one passed on, with its header edit, up to 16 MiB; beyond that the oversize answer |
| `Chain.ResponseBodyDecisionTakesEffect` | plecto/crates/control/src/chain.rs:315-348 | a response body a hook returns is the one sent, up to the cap, and an answer over the cap is replaced by the oversize one |
| `Chain.Host.DispatchRequestInline` | plecto/crates/control/src/chain.rs:117-141 | inline either completes as the blocking run or stops at the first filter that would block, with message, state and log of the blocking run so far |
| `Chain.Host.DispatchRequestFrom` | plecto/crates/control/src/chain.rs:143-159 | the blocking run of the rest of the chain |
| `Chain.Host.DispatchRequest` | plecto/crates/server/src/proxy.rs:322-337 | inline then resume equals the blocking run, for every chain and every pattern of busy filters |
| `Chain.Host.DispatchResponseInline` | plecto/crates/control/src/chain.rs:240-263 | the same in reverse order |
| `Chain.Host.DispatchResponseFrom` | plecto/crates/control/src/chain.rs:268-290 | the blocking reverse run from a filter index, clamped to the chain |
| `Chain.Host.DispatchResponse` | plecto/crates/server/src/proxy.rs:845-865 | inline then resume equals the blocking reverse run |
| `Chain.Host.DispatchRequestBody` | plecto/crates/control/src/chain.rs:173-200 | the request body pass is the plain run of the body hooks, cap check included |
| `Chain.Host.DispatchResponseBody` | plecto/crates/control/src/chain.rs:315-348 | the response body pass is the plain reverse run under the route's cap |
| `Chain.FailClosedIsServerError` | plecto/crates/host/src/errors.rs:67-87 | a run error always answers with a 5xx: 504 exactly for a deadline, 503 exactly for an unavailable filter, 502 exactly for the rest, and the fault header tells all errors apart |
| `Chain.ForwardIffNobodyObjected` | plecto/crates/control/src/chain.rs:1-3 | a request reaches upstream exactly when no filter failed or short-circuited on what it was given |
| `Chain.RespondIffNobodyObjected` | plecto/crates/control/src/chain.rs:216-290 | a response goes out as the filters left it exactly when none of them, in reverse order, failed or replaced it |
| `Chain.ForwardBodyIffNobodyObjected` | plecto/crates/control/src/chain.rs:173-200 | a request body is forwarded exactly when no hook failed, answered or made it longer than the reserved buffer |
| `Chain.RespondBodyIffNobodyObjected` | plecto/crates/control/src/chain.rs:307-348 | a response body goes out exactly when no hook, in reverse order, failed, answered or exceeded the cap |
| `Chain.RequestBodiesFit` | plecto/crates/control/src/chain.rs:183-190 | every body shown to a filter or forwarded fits the reserved buffer if the client's did |
| `Chain.ResponseBodiesFit` | plecto/crates/control/src/chain.rs:307-347 | every body shown or sent fits the cap, and if nothing was transformed body and headers go out as they came |
| `Stek.OpenSealed` | plecto/crates/control/src/stek.rs:256-317 | a sealed ticket opens under its own epoch to its plaintext, for every plaintext |
| `Stek.TicketOnTheWire` | plecto/crates/control/src/stek.rs:256-275 | a ticket byte by byte, and which derived key encrypts, signs and names it |
| `Stek.OpenedIsAuthentic` | plecto/crates/control/src/stek.rs:291-317 | a ticket opens exactly when it is name, IV and ciphertext followed by their own tag, and the ciphertext decrypts |
| `Stek.ClaimKeptExactly` | plecto/crates/control/src/stek.rs:107-109 | a ticket never claims to outlive its key exactly when it is issued no later than the key file's time stamp (plus what 32 bits cut off the limit) |
| `StekTicketer.OneMoreCheck` | plecto/crates/control/src/stek.rs:198-238 | how one more file check moves the two epochs: same material, rotation, recovery, failure |
| `StekTicketer.HeldEpochs` | plecto/crates/control/src/stek.rs:90-95 | no current epoch means no previous one, and two held epochs have different digests |
| `StekTicketer.Open` | plecto/crates/control/src/stek.rs:125-178 | a build fails exactly if the key file is unreadable, not 64 bytes long, or has any group or other permission bit set |
| `StekTicketer.Ticketer.MaybeReload` | plecto/crates/control/src/stek.rs:184-239 | at most one check per interval; after every call the two epochs are those of the history of checks |
| `StekTicketer.Ticketer.Enabled` | plecto/crates/control/src/stek.rs:243-250 | tickets are offered exactly when the file found by the last performed check has none of those faults and its time stamp is within the age limit |
| `StekTicketer.Ticketer.Lifetime` | plecto/crates/control/src/stek.rs:252-254 | the advertised lifetime is the age limit, narrowed to 32 bits |
| `StekTicketer.Ticketer.Encrypt` | plecto/crates/control/src/stek.rs:256-275 | a ticket is issued exactly if, besides, an IV is drawn, and is the sealed record under the current epoch |
| `StekTicketer.Ticketer.Decrypt` | plecto/crates/control/src/stek.rs:277-288 | only fresh held epochs open a ticket, and nothing does after a check found a faulty file until one finds a good one |
| `StekTicketer.HeldAreContents` | plecto/crates/control/src/stek.rs:180-239 | over every run of rotations, touches, losses and recoveries the held epochs are those of the last content read and of the distinct content before it with no failed read between; Valid() says that a ticketer's history is such a run |
| `StekTicketer.AcrossReplicas` | plecto/crates/control/src/stek.rs:1-26 | a ticket sealed under content v opens under another history exactly when v is freshly its current or previous content and the cert binding is the same |
| `StekTicketer.ResumeElsewhere` | plecto/crates/control/src/stek.rs:256-288 | on two ticketers: one issues exactly if the content it saw last is usable and fresh, and the other then opens the ticket exactly if that content is freshly its current or previous one and the cert bindings agree |
| `NormalizePath.NormalizeTarget` | plecto/crates/control/src/route.rs:845-893 | the ingress loop computes the stack resolution |
| `NormalizePath.ResolveAll` | plecto/crates/control/src/route.rs:871-883 | the push and pop loop over the segments |
| `NormalizePath.RejectionReasons` | plecto/crates/control/src/route.rs:855-878 | a rooted target is rejected exactly for a forbidden byte, an encoded separator, or an escape from the root |
| `NormalizePath.RefusedBytes` | plecto/crates/control/src/route.rs:845-906 | what is refused, byte for byte: control bytes, DEL, backslash, %2e %2f %5c in either case, and a beginning that climbs above the root |
| `NormalizePath.NotRootedUntouched` | plecto/crates/control/src/route.rs:845-906 | a target that does not begin with a slash is passed on as it is |
| `NormalizePath.NormalizedHasNoDots` | plecto/crates/control/src/route.rs:845-906 | no segment that comes out is a dot segment and no byte a refused one |
| `NormalizePath.RejectedIffEscapes` | plecto/crates/control/src/route.rs:869-878 | the stack fails exactly when some beginning of the path has more `..` than ordinary segments |
| `NormalizePath.StackKeepsSurvivors` | plecto/crates/control/src/route.rs:869-883 | the stack, read left to right, keeps what a right-to-left count of pending `..` keeps |
| `NormalizePath.NormalizedIsSurvivors` | plecto/crates/control/src/route.rs:869-887 | the path that comes out is the surviving segments rejoined |
| `NormalizePath.NormalizedIsClean` | plecto/crates/control/src/route.rs:832-892 | what comes out is rooted, has no dot segment, forbidden byte or encoded separator, and its query is the one that came in |
| `NormalizePath.Idempotent` | plecto/crates/control/src/route.rs:832-844 | normalising twice is normalising once |
| `PathPrefix.UnderIsSegmentPrefix` | plecto/crates/control/src/route.rs:908-921 | the byte test is the segment-list prefix relation (a proper prefix when the prefix ends in a slash) |
| `PathPrefix.StripIsBySegments` | plecto/crates/control/src/route.rs:1009-1037 | the strip changes a path only under that relation and then leaves a root and the remaining segments, except that a strip ending in a slash swallows an empty segment it meets |
| `PathPrefix.NoStripNoChange` | plecto/crates/control/src/route.rs:1018-1021 | without a strip the path is forwarded as it is |
| `PathPrefix.StripWithQuery` | plecto/crates/control/src/route.rs:1009-1037 | a query rides along unchanged if and only if the path is not exactly a strip without a final slash, and, for a strip that contains a question mark, the strip is no prefix of path and query at a segment boundary |
| `PathPrefix.StripKeepsNormalised` | plecto/crates/control/src/route.rs:1009-1037 | stripping a normalised rooted target by a prefix without a question mark leaves a normalised rooted target with the same query |
| `PathPrefix.StripPreservesExactly` | plecto/crates/control/src/route.rs:1009-1037 | a strip leaves every normalised rooted target normalised, rooted and with its query if and only if it has no question mark or what stands before it is not a clean path |
| `RouteSelect.HostNameOnly` | plecto/crates/control/src/route.rs:806-830 | a port and one trailing dot make no difference to a host name |
| `RouteSelect.BracketedHost` | plecto/crates/control/src/route.rs:806-830 | a bracketed literal is kept whole |
| `RouteSelect.RequestPathParts` | plecto/crates/control/src/route.rs:987-989 | the bare path and the query that matching sees |
| `RouteSelect.FirstPairDecides` | plecto/crates/control/src/route.rs:966-978 | the first occurrence of a query name decides, malformed pairs being passed over |
| `RouteSelect.RankIsPrecedence` | plecto/crates/control/src/route.rs:994-1005 | comparing the tuple keys is the documented precedence with the earliest index last |
| `RouteSelect.SelectIsTheChoice` | plecto/crates/control/src/route.rs:980-1007 | the selected route is the one and only best match; there is none exactly when nothing matches |
| `RouteSelect.MeetsIffMatches` | plecto/crates/control/src/route.rs:923-1003 | matching, dimension by dimension, on the request itself: host up to case and without port and dot, segment prefix of the bare path, method, first header of each name, first well-formed query pair of each name |
| `RouteSelect.SelectDecides` | plecto/crates/control/src/route.rs:985-1007 | nothing is selected exactly when every route fails in a dimension it declares; otherwise exactly the one that fails in none and precedes all others that fail in none |
| `RouteSelect.NonMatchingIsIrrelevant` | plecto/crates/control/src/route.rs:985-1007 | inserting a route that does not match changes the choice only by its index |
| `Health.HealthyExactly` | plecto/crates/control/src/upstream/instance.rs:111-165 | an instance is in rotation exactly when some probe of it passed and, since it was last put out by `unhealthy_threshold` failures in a row, `healthy_threshold` passed in a row; whatever the saturating counters did |
| `Health.Instance.RecordSuccess` | plecto/crates/control/src/upstream/instance.rs:116-137 | the counter updates of a passed probe follow the specified standing |
| `Health.Instance.RecordFailure` | plecto/crates/control/src/upstream/instance.rs:151-167 | the counter updates of a failed probe or connection follow the specified standing |
| `Health.Instance.IsHealthy` | plecto/crates/control/src/upstream/instance.rs:95-97 | the flag that picks read says what the whole history of outcomes amounts to |
| `Registry.UpstreamRegistry.Reconcile` | plecto/crates/control/src/upstream/registry.rs:41-190 | all-or-nothing: refused exactly for an empty, duplicate or invalid upstream, with the first such reason and the groups untouched, otherwise exactly the declared upstreams, each rebuilt around the instance objects of its previous group; no instance is modified |
| `Registry.UpstreamRegistry.RecordOutcome` | plecto/crates/control/src/upstream/registry.rs:205-216 | a probe outcome is added to one instance and leaves the registry valid |
| `Registry.StandingSurvives` | plecto/crates/control/src/upstream/registry.rs:99-152 | an instance is taken over exactly if the group of that name has one of the same address and weight and neither the health nor the TLS settings changed |
| `Registry.Rebuild` | plecto/crates/control/src/upstream/registry.rs:96-190 | a known instance is the same object as before, any other is new and never probed, and the rotation counter goes on where it was |
| `ReloadChecks.ValidateFiltersAndChain` | plecto/crates/control/src/lib.rs:611-626 | accepted exactly when the inert section is empty, ids are distinct and every entry is in range |
| `ReloadChecks.ValidateRoutes` | plecto/crates/control/src/route.rs:539-709 | accepted exactly when every route's name, targets, split, filters and facilities are valid and names are distinct |
| `Reload.CompileRoutes` | plecto/crates/control/src/lib.rs:720-746 | compiling fails exactly on a target without a group or a split that does not validate |
| `Reload.CompilesAfterReconcile` | plecto/crates/control/src/lib.rs:715-719 | after a successful reconcile nothing left in the build can fail |
| `Reload.BuildActive` | plecto/crates/control/src/lib.rs:631-756 | the build succeeds exactly when every check does; a failed build leaves the registry untouched, a successful one leaves it reconciled for the routes it returns |
| `Reload.Prepare` | plecto/crates/control/src/lib.rs:631-715 | the fallible steps before the registry succeed exactly when every check does |
| `Reload.BuildableExactly` | plecto/crates/control/src/lib.rs:611-756 | a build succeeds for exactly the manifests that meet the checks one by one: filters in range, loadable and distinct, every route named, targeted, split and filtered by what is declared, TLS, hashes and upstreams in order |
| `Reload.ChainsAreWhole` | plecto/crates/control/src/route.rs:139-146 | every filter a route names is in its compiled chain, in that order; none is dropped |
| `Reload.Load` | plecto/crates/control/src/lib.rs:631-756 | starting up is the same build against an empty registry |
| `Reload.Control.ReloadWith` | plecto/crates/control/src/control_reload.rs:18-31 | swap in or change nothing at all; trust and state are fixed; every unchanged instance keeps all its probe outcomes |
| `Reload.Control.RecordOutcome` | plecto/crates/control/src/upstream/registry.rs:23-26 | a probe between reloads keeps the registry the one reconciled for the active configuration |
| `Reload.Control.ReloadFromDisk` | plecto/crates/control/src/control_reload.rs:68-147 | unchanged exactly when both halves of the identity match; otherwise the build decides, and a failure changes neither configuration nor registry |
| `TokenPacing.InvStep` | bench/loadgen/src/main.rs:255-260 | every atomic step of a worker or the pacer keeps the balance of credits and the bounds |
| `TokenPacing.EveryInterleaving` | bench/loadgen/src/main.rs:255-260 | under every interleaving credits = sent + in flight + counter + pending give-backs; requests never exceed credits; the counter stays between -W and cap + W |
| `TokenPacing.NothingLost` | bench/loadgen/src/main.rs:255-260 | a failed take never loses a token: with nothing pending every credit is sent or still in the counter |
| `TokenPacing.CapOvershoots` | bench/loadgen/src/main.rs:339-351 | some interleaving leaves the backlog W tokens above the cap |
| `TokenPacing.MostTokensIsReached` | bench/loadgen/src/main.rs:339-351 | in runs of a given number of slots the counter never exceeds min(cap + W, slots * per slot), and some interleaving reaches that |
| `TokenPacing.CapHoldsExactly` | bench/loadgen/src/main.rs:340-341 | the documented backlog cap holds in every run of so many slots if and only if there are no workers or the slots bring no more than the cap |
| `TokenPacing.CapHoldsIffNoWorkers` | bench/loadgen/src/main.rs:340-341 | it holds in every run of every length if and only if there are no workers |
| `TokenPacing.NobodyLeavesEarly` | bench/loadgen/src/main.rs:253-254 | no worker leaves its loop before the flag is up, and the flag goes up only when the pacer is through |
| `TokenPacing.DoneStopsTheWorkers` | bench/loadgen/src/main.rs:253-260 | once the flag is up a worker takes at most the one token it was about to take |
| `WsFrames.MaskedTwice` | bench/loadgen/src/ws.rs:95-99 | masking is undone by unmasking with the same key |
| `WsFrames.MasksAreBits` | bench/harnesses/bench-server/ws.rs:49-52 | the low four bits, the low seven, the top bit, and setting it, bit by bit |
| `WsFrames.XorIsBitwise` | bench/loadgen/src/ws.rs:94-99 | masking sets a bit exactly where payload and key differ |
| `WsFrames.Unmask` | bench/harnesses/bench-server/ws.rs:73-77 | the in-place loop unmasks the buffer |
| `WsCodec.ClientWriteFrame` | bench/loadgen/src/ws.rs:75-102 | the client's header pushes and masked payload are the masked frame of sections 5.2 and 5.3 of RFC 6455 |
| `WsCodec.ServerWriteFrame` | bench/harnesses/bench-server/ws.rs:93-112 | the server's unmasked frame |
| `WsCodec.HeadOnTheWire` | bench/loadgen/src/ws.rs:75-99 | the frames byte by byte in the three length forms |
| `WsCodec.KnownOpcodes` | bench/harnesses/bench-server/ws.rs:76-87 | the server knows text, binary, close, ping and pong by their numbers, and no other opcode |
| `WsCodec.ServerReadsClient` | bench/harnesses/bench-server/ws.rs:40-90 | any client frame, with any mask and in all three length forms, followed by arbitrary bytes, is read back as the same frame with those bytes left over; an unknown opcode is an error |
| `WsCodec.ClientReadsServer` | bench/loadgen/src/ws.rs:107-145 | any server frame is read back by the client, a close frame as the end |
| `WsCodec.EndIffNoHead` | bench/harnesses/bench-server/ws.rs:38-88 | a clean end is reported exactly when fewer than two bytes are left, an error exactly for a frame cut short, a fragment or an unknown opcode |
| `WsCodec.ClientEndIffNoHeadOrClose` | bench/loadgen/src/ws.rs:104-145 | the client ends exactly on fewer than two bytes or a complete close frame, and fails exactly on a frame cut short after two bytes |
| `WsEcho.Connection.ReadFrame` | bench/harnesses/bench-server/ws.rs:40-90 | the server's reader parses the rest of its input and stops where the frame does |
| `WsEcho.Connection.ClientReadFrame` | bench/loadgen/src/ws.rs:107-145 | the client's reader likewise |
| `WsEcho.Connection.EchoLoop` | bench/harnesses/bench-server/ws.rs:116-145 | the loop answers frame by frame until a close frame, the end of the input or an error |
| `WsEcho.EchoIsIdentity` | bench/harnesses/bench-server/ws.rs:114-145 | client write, server echo, client read: every text, binary and ping payload comes back unchanged and in order, and the conversation ends cleanly |
| `WsEcho.EchoEnds` | bench/harnesses/bench-server/ws.rs:109-145 | an end of input or a close frame is answered with an empty close frame, an error with nothing |

## Left out

- WeightedBackends.Backends.Pick: group eligibility is fixed during one pick, so a group that goes down between the first check and the scan is not captured; picks by concurrent threads appear only as the distinct cursor values they draw.
- Maglev.Build: the Murmur hash of the names is a pair of arbitrary words; minimal disruption and spread are statistical and not stated.
- BoundedDraw.Stream.Below: the SplitMix64 generator, its seeding and its thread-local state are replaced by a given finite stream; termination with probability one is not stated.
- Chain.Host.DispatchRequest: a hook is a function of what it sees and of the host state, and a call that would block leaves no trace; log lines, trace spans, worker threads and panics of a chain are not modelled.
- Headers.SetHeaders: header vectors edited in place through a mutable reference are passed in and returned as values.
- Chain.Host.DispatchResponseBody: a fail-closed or oversize answer is not itself held to the route's cap, as in the code.
- StekTicketer.Ticketer.MaybeReload: reading the file and updating the epochs are one step, so two overlapping slow checks that commit in the other order appear in the history in the order they commit.
- StekTicketer.Ticketer.Encrypt: zeroisation of key material and the failure of the cipher call are not modelled.
- RouteSelect.SelectIsTheChoice: the compiled facilities carried by a route (timeouts, compression, upgrade, response headers) play no part in matching and are absent.
- ReloadChecks.ValidateRoutes: the checks of rate limits, upgrades, compression, response headers and response bodies are one given verdict per route; blank names are recognised by ASCII white space.
- Registry.UpstreamRegistry.Reconcile: endpoints resolved from DNS, reuse of TLS client objects, circuit-breaker settings and a poisoned lock are not modelled. Two entries of one upstream with the same address and weight share an object after a reload, as in the code.
- Reload.BuildActive: artifact resolution, signature checks, TLS material and the content hashes are given answers of the environment.
- Reload.Control.ReloadFromDisk: the reload mutex makes reloads sequential; readers of the swapped configuration are not modelled.
- Webster.NotTheSmallestWorstCase: one split of three backends; for which larger splits another order has a smaller worst case is not characterised.
- TokenPacing.EveryInterleaving: connections, responses and the grace period reduce to the atomic steps on the counter and the flag; counter overflow is not modelled.
- WsEcho.Connection.EchoLoop: write errors, the handshake, asynchronous scheduling and the allocation of very long payloads are not modelled.
- The native rate limiter's bucket arithmetic lives in another crate and is not part of this model.
- Outlier detection, circuit breaking, the scheduling of health probes and the load-balancing picks inside one group.
- Manifest parsing, OCI artifacts, observability, signal handling and the command line.
